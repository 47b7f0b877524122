/** Rename detection as a whole: what goes in comes out, as it was or as part of a rename. */
module RenameDetector {
  import opened Ordering
  import opened Graph
  import opened ObjectGraph
  import opened RenameMatching
  import SimilarityIndex
  import SimilarityScore
  import NameSimilarity
  import opened Sequences
  import opened Wrappers

  // --- Renames of similar content -------------------------------------------------------------

  datatype Index = Indexed(table: SimilarityIndex.Table, num: nat, hashed: nat) | TooLarge | Unreadable

  datatype File = File(size: nat, index: Index)

  /** The files that can be read, with their similarity indices. */
  type Files = map<Hash, File>

  ghost predicate WellIndexed(files: Files) {
    forall h :: h in files && files[h].index.Indexed? ==>
      files[h].index.num == SimilarityIndex.Used(files[h].index.table)
      && files[h].index.hashed == SimilarityIndex.Total(files[h].index.table)
  }

  predicate Regular(c: Change) { ModeOf(c) == REGULAR }

  /** Sizes as a percentage of each other, counting empty files as one byte. */
  function SizeRatio(a: nat, b: nat): nat {
    if b < a then (b + 1) * 100 / (a + 1) else (a + 1) * 100 / (b + 1)
  }

  predicate Comparable(files: Files, threshold: int, src: Change, dst: Change) {
    && Regular(src) && Regular(dst)
    && HashOf(src) in files && HashOf(dst) in files
    && SizeRatio(files[HashOf(src)].size, files[HashOf(dst)].size) >= threshold
    && files[HashOf(src)].index.Indexed? && files[HashOf(dst)].index.Indexed?
  }

  function ContentScore(a: Index, b: Index): nat
    requires a.Indexed? && b.Indexed?
  {
    SimilarityScore.ScoreOf(SimilarityScore.Merge(a.table, b.table, 0, 0), a.hashed, b.hashed, 10000)
  }

  /** Content counts 99 times as much as the name. */
  function PairScore(files: Files, src: Change, dst: Change): nat
    requires HashOf(src) in files && HashOf(dst) in files
    requires files[HashOf(src)].index.Indexed? && files[HashOf(dst)].index.Indexed?
  {
    (ContentScore(files[HashOf(src)].index, files[HashOf(dst)].index) * 99
     + NameSimilarity.Score(NameOf(src), NameOf(dst)) * 100) / 10000
  }

  predicate Similar(files: Files, threshold: int, src: Change, dst: Change) {
    Comparable(files, threshold, src, dst) && PairScore(files, src, dst) >= threshold
  }

  /** Whether a quotient reaches a threshold. */
  lemma QuotientAtLeast(x: nat, y: nat, threshold: int)
    requires y > 0
    ensures x / y >= threshold <==> x >= threshold * y
  {
    var q := x / y;
    assert q * y <= x < (q + 1) * y;
    if q >= threshold {
      Factor(y, q - threshold);
    } else {
      Factor(y, threshold - q - 1);
    }
  }

  lemma Factor(y: nat, d: nat)
    ensures d * y >= 0
  {
  }

  /** Only regular files are similar, and only if both have an index.  The smaller one has at least
      the threshold of the larger one's size, each size plus one, and so has the score of hundredths of
      a percent of content, 99 times, with the percent of the name, 100 times. */
  lemma SimilarIs(files: Files, threshold: int, src: Change, dst: Change)
    ensures Similar(files, threshold, src, dst) <==>
            && ModeOf(src) == ModeOf(dst) == REGULAR && HashOf(src) in files && HashOf(dst) in files
            && var (a, b) := (files[HashOf(src)], files[HashOf(dst)]);
               && (a.size + 1) * 100 >= threshold * (b.size + 1) && (b.size + 1) * 100 >= threshold * (a.size + 1)
               && a.index.Indexed? && b.index.Indexed?
               && ContentScore(a.index, b.index) * 99 + NameSimilarity.Score(NameOf(src), NameOf(dst)) * 100
                  >= threshold * 10000
  {
    hide ContentScore, NameSimilarity.Score;
    if Regular(src) && Regular(dst) && HashOf(src) in files && HashOf(dst) in files {
      var a, b := files[HashOf(src)], files[HashOf(dst)];
      RatioAtLeast(a.size, b.size, threshold);
      if a.index.Indexed? && b.index.Indexed? {
        QuotientAtLeast(ContentScore(a.index, b.index) * 99 + NameSimilarity.Score(NameOf(src), NameOf(dst)) * 100, 10000, threshold);
      }
    }
  }

  lemma RatioAtLeast(a: nat, b: nat, threshold: int)
    ensures SizeRatio(a, b) >= threshold <==>
            (a + 1) * 100 >= threshold * (b + 1) && (b + 1) * 100 >= threshold * (a + 1)
  {
    var least, most := if b < a then b else a, if b < a then a else b;
    QuotientAtLeast((least + 1) * 100, most + 1, threshold);
    if threshold >= 0 {
      Factor(threshold, most - least);
      assert threshold * (most + 1) >= threshold * (least + 1);
    } else {
      Factor(-threshold, least + 1);
      Factor(-threshold, most + 1);
      assert (-threshold) * (least + 1) == -(threshold * (least + 1));
      assert (-threshold) * (most + 1) == -(threshold * (most + 1));
    }
  }

  /** Equal contents make 99 percent and contents with nothing in common none; the name adds one
      percent, and only if it is the same. */
  lemma PairScoreParts(files: Files, src: Change, dst: Change)
    requires WellIndexed(files) && HashOf(src) in files && HashOf(dst) in files
    requires files[HashOf(src)].index.Indexed? && files[HashOf(dst)].index.Indexed?
    ensures var a, b := files[HashOf(src)].index, files[HashOf(dst)].index;
            var score := PairScore(files, src, dst);
            && (a.table == b.table ==> score == 99 + (if NameOf(src) == NameOf(dst) then 1 else 0))
            && (a.hashed > 0 && SimilarityScore.Merge(a.table, b.table, 0, 0) == 0 ==>
                  score == if NameOf(src) == NameOf(dst) then 1 else 0)
  {
    hide SimilarityScore.Merge, SimilarityIndex.Total, SimilarityIndex.Used, NameSimilarity.Score;
    var a, b := files[HashOf(src)].index, files[HashOf(dst)].index;
    NameSimilarity.ScoreMeans(NameOf(src), NameOf(dst));
    if a.table == b.table {
      SimilarityScore.SameTable(a.table);
      SimilarityScore.ScoreIs(a.hashed, a.hashed, b.hashed, 10000);
    }
  }

  /** A score is a percentage. */
  lemma PairScoreRange(files: Files, src: Change, dst: Change)
    requires WellIndexed(files) && HashOf(src) in files && HashOf(dst) in files
    requires files[HashOf(src)].index.Indexed? && files[HashOf(dst)].index.Indexed?
    ensures PairScore(files, src, dst) <= 100
  {
    hide SimilarityScore.Merge, SimilarityIndex.Total, SimilarityIndex.Used, NameSimilarity.Score;
    var a, b := files[HashOf(src)].index, files[HashOf(dst)].index;
    NameSimilarity.ScoreMeans(NameOf(src), NameOf(dst));
    SimilarityScore.CommonBounded(a.table, b.table);
    var maxHashed := if a.hashed < b.hashed then b.hashed else a.hashed;
    if maxHashed > 0 {
      SimilarityScore.FractionAtMost(SimilarityScore.Merge(a.table, b.table, 0, 0), 10000, maxHashed);
    }
  }

  ghost predicate Readable(files: Files, srcs: seq<Change>, dsts: seq<Change>) {
    && (forall i :: 0 <= i < |srcs| && Regular(srcs[i]) ==> HashOf(srcs[i]) in files && !files[HashOf(srcs[i])].index.Unreadable?)
    && (forall i :: 0 <= i < |dsts| && Regular(dsts[i]) ==> HashOf(dsts[i]) in files && files[HashOf(dsts[i])].index.Indexed?)
  }

  /** `p` is a pair of the first `n` additions with this deletion, and they are similar. */
  ghost predicate InRow(files: Files, threshold: int, s: nat, src: Change, dsts: seq<Change>, n: nat, p: Pair)
    requires n <= |dsts|
  {
    p.deleted == s && p.added < n && Similar(files, threshold, src, dsts[p.added]) && p.score == PairScore(files, src, dsts[p.added])
  }

  /** The scores of one deleted file. */
  method ScoreRow(files: Files, threshold: int, s: nat, src: Change, dsts: seq<Change>) returns (ok: bool, row: seq<Pair>)
    requires WellIndexed(files) && Named(src) && AllNamed(dsts)
    ensures ok ==> forall p :: p in row <==> InRow(files, threshold, s, src, dsts, |dsts|, p)
    ensures !ok ==> !Readable(files, [src], dsts)
  {
    hide SizeRatio, PairScore, ContentScore, SimilarityIndex.Used, SimilarityIndex.Total, SimilarityScore.Merge, NameSimilarity.Score;
    row := [];
    if !Regular(src) {
      return true, row;
    }
    for d := 0 to |dsts|
      invariant forall p :: p in row <==> InRow(files, threshold, s, src, dsts, d, p)
    {
      var dst := dsts[d];
      if !Regular(dst) {
        continue;
      }
      if HashOf(src) !in files || HashOf(dst) !in files {
        assert [src][0] == src;
        return false, [];
      }
      var from, to := files[HashOf(src)], files[HashOf(dst)];
      if SizeRatio(from.size, to.size) < threshold {
        continue;
      }
      if from.index.TooLarge? {
        return true, row;
      }
      if from.index.Unreadable? || !to.index.Indexed? {
        assert [src][0] == src;
        return false, [];
      }
      var score := ScorePair(files, src, dst);
      if score < threshold {
        continue;
      }
      row := row + [Pair(d, s, score)];
    }
    return true, row;
  }

  method ScorePair(files: Files, src: Change, dst: Change) returns (score: nat)
    requires WellIndexed(files) && Named(src) && Named(dst) && HashOf(src) in files && HashOf(dst) in files
    requires files[HashOf(src)].index.Indexed? && files[HashOf(dst)].index.Indexed?
    ensures score == PairScore(files, src, dst)
  {
    hide SimilarityIndex.Used, SimilarityIndex.Total, SimilarityScore.Merge, SimilarityScore.ScoreOf, NameSimilarity.Score;
    var s, di := files[HashOf(src)].index, files[HashOf(dst)].index;
    var contentScore := SimilarityScore.Score(s.table, s.num, s.hashed, di.table, di.num, di.hashed, 10000);
    var name := NameSimilarity.NameSimilarityScore(NameOf(src), NameOf(dst));
    score := (contentScore * 99 + name * 100) / 10000;
  }

  /** `p` is a pair of similar changes. */
  ghost predicate InMatrix(files: Files, threshold: int, srcs: seq<Change>, dsts: seq<Change>, p: Pair) {
    && p.deleted < |srcs| && p.added < |dsts|
    && Similar(files, threshold, srcs[p.deleted], dsts[p.added]) && p.score == PairScore(files, srcs[p.deleted], dsts[p.added])
  }

  /** `buildSimilarityMatrix`: exactly the similar pairs. */
  method BuildSimilarityMatrix(files: Files, threshold: int, srcs: seq<Change>, dsts: seq<Change>) returns (ok: bool, m: seq<Pair>)
    requires WellIndexed(files) && AllNamed(srcs) && AllNamed(dsts)
    ensures ok ==> WorstFirst(m) && forall p :: p in m <==> InMatrix(files, threshold, srcs, dsts, p)
    ensures !ok ==> !Readable(files, srcs, dsts)
  {
    hide Similar, PairScore, HashOf, ModeOf;
    m := [];
    for s := 0 to |srcs|
      invariant forall p :: p in m <==> p.deleted < s && InMatrix(files, threshold, srcs, dsts, p)
    {
      var okRow, row := ScoreRow(files, threshold, s, srcs[s], dsts);
      if !okRow {
        assert [srcs[s]][0] == srcs[s];
        return false, [];
      }
      m := m + row;
    }
    ghost var built := m;
    m := SortMatrix(m);
    assert forall p :: p in m <==> p in multiset(m);
    assert forall p :: p in built <==> p in multiset(built);
    return true, m;
  }

  // --- Detection ------------------------------------------------------------------------------

  /** The name that orders the result: the old one if there is one. */
  function PathOf(c: Change): string
    requires !Malformed(c)
  {
    if c.from.Something? then c.from.name else c.to.name
  }

  ghost predicate ByPath(s: seq<Change>) {
    && (forall i :: 0 <= i < |s| ==> !Malformed(s[i]))
    && (forall i, j :: 0 <= i < j < |s| ==> !Below(PathOf(s[j]), PathOf(s[i])))
  }

  /** Changes are ordered by the old path; an addition, which has none, by the new one. */
  lemma ByPathIs(s: seq<Change>, i: nat, j: nat)
    requires ByPath(s) && i < j < |s|
    ensures s[i].from.Something? && s[j].from.Something? ==> !Below(s[j].from.name, s[i].from.name)
    ensures s[i].from.Something? && s[j].from.Nothing? ==> !Below(s[j].to.name, s[i].from.name)
    ensures s[i].from.Nothing? && s[j].from.Something? ==> !Below(s[j].from.name, s[i].to.name)
    ensures s[i].from.Nothing? && s[j].from.Nothing? ==> !Below(s[j].to.name, s[i].to.name)
  {
    assert !Below(PathOf(s[j]), PathOf(s[i]));
  }

  method InsertByPath(s: seq<Change>, c: Change) returns (r: seq<Change>)
    requires ByPath(s) && !Malformed(c)
    ensures ByPath(r) && multiset(r) == multiset(s) + multiset{c}
  {
    hide Below, PathOf, Malformed;
    var k := |s|;
    while k > 0 && Below(PathOf(c), PathOf(s[k - 1]))
      invariant 0 <= k <= |s| && forall i :: k <= i < |s| ==> Below(PathOf(c), PathOf(s[i]))
    {
      k := k - 1;
    }
    InsertedChange(s, k, c);
    r := s[..k] + [c] + s[k..];
    assert s == s[..k] + s[k..];
  }

  /** `sort.Stable` of the result. */
  method SortByPath(s: seq<Change>) returns (r: seq<Change>)
    requires forall i :: 0 <= i < |s| ==> !Malformed(s[i])
    ensures ByPath(r) && multiset(r) == multiset(s)
  {
    hide ByPath, Malformed;
    r := [];
    SortedNone();
    for n := 0 to |s|
      invariant ByPath(r) && multiset(r) == multiset(s[..n])
    {
      assert s[..n + 1] == s[..n] + [s[n]];
      r := InsertByPath(r, s[n]);
    }
    assert s[..|s|] == s;
  }

  lemma SortedNone()
    ensures ByPath([])
  {
  }

  lemma InsertedChange(r: seq<Change>, k: nat, c: Change)
    requires ByPath(r) && k <= |r| && !Malformed(c) && (k > 0 ==> !Below(PathOf(c), PathOf(r[k - 1])))
    requires forall i :: k <= i < |r| ==> Below(PathOf(c), PathOf(r[i]))
    ensures ByPath(r[..k] + [c] + r[k..])
  {
    hide Below, PathOf;
    var s := r[..k] + [c] + r[k..];
    assert forall i :: 0 <= i < |s| ==> s[i] == if i < k then r[i] else if i == k then c else r[i - 1];
    forall i, j | 0 <= i < j < |s| ensures !Below(PathOf(s[j]), PathOf(s[i])) {
      if j == k && i < k - 1 {
        var p, q, x := PathOf(r[i]), PathOf(r[k - 1]), PathOf(c);
        if Below(x, p) {
          BelowOrder(x, p, q);
        }
      } else if i == k && j > k {
        var x, y := PathOf(c), PathOf(r[j - 1]);
        if Below(y, x) {
          BelowTransitive(x, y, x);
          BelowIrreflexive(x);
        }
      }
    }
  }

  /** Below something that is not above `q` is below `q`. */
  lemma {:induction false} BelowOrder(x: string, p: string, q: string)
    requires Below(x, p) && !Below(q, p)
    ensures Below(x, q)
  {
    BelowTotal(p, q);
    if Below(p, q) {
      BelowTransitive(x, p, q);
    }
  }

  /** Every pair is of one content, or of similar contents. */
  ghost predicate Justified(files: Files, threshold: int, pairs: seq<(Change, Change)>) {
    forall i :: 0 <= i < |pairs| ==>
      HashOf(pairs[i].0) == HashOf(pairs[i].1) || Similar(files, threshold, pairs[i].0, pairs[i].1)
  }

  ghost predicate NothingSimilar(files: Files, threshold: int, deleted: seq<Change>, added: seq<Change>) {
    forall i, j :: 0 <= i < |deleted| && 0 <= j < |added| ==> !Similar(files, threshold, deleted[i], added[j])
  }

  class Detector {
    var added: seq<Change>
    var deleted: seq<Change>
    var modified: seq<Change>
    const renameScore: int
    const renameLimit: int
    const onlyExact: bool

    constructor (renameScore: int, renameLimit: int, onlyExact: bool)
      ensures added == [] && deleted == [] && modified == []
      ensures this.renameScore == renameScore && this.renameLimit == renameLimit && this.onlyExact == onlyExact
    {
      added, deleted, modified := [], [], [];
      this.renameScore, this.renameLimit, this.onlyExact := renameScore, renameLimit, onlyExact;
    }

    /** `detectExactRenames`. */
    method DetectExactRenames() returns (ghost pairs: seq<(Change, Change)>)
      requires AllNamed(added) && AllNamed(deleted) && NoRepeats(added) && NoRepeats(deleted)
      modifies this
      ensures modified == old(modified) + Renames(pairs) && SameHash(pairs)
      ensures Conserved(old(deleted), deleted, Deletions(pairs))
      ensures Settled(old(added), added, pairs, DroppedIn(old(added), old(added), old(deleted)))
    {
      hide HashOf, Named, Group, Renames, Deletions, Additions, NoRepeats, Balanced, DroppedIn, Settled, Holds;
      var adds := GroupChangesByHash(added);
      var deletes := GroupChangesByHash(deleted);
      assert Grouped(adds) by { BalancedGrouped(added, adds, []); }
      var unique, nonUnique := SplitGroups(adds);
      SplitParts(added, adds, unique, Flat(nonUnique));
      var left, deletes', renames, pairs1 := MatchUniques(unique, deletes, added, deleted);
      var left2, deletes'', renames2, pairs2 := MatchSeverals(nonUnique, deletes', renameLimit, deleted, Deletions(pairs1));
      assert Grouped(deletes'') by { BalancedGrouped(deleted, deletes'', Deletions(pairs1) + Deletions(pairs2)); }
      var rest := Ungroup(deletes'');
      pairs := pairs1 + pairs2;
      PairsConcat(pairs1, pairs2);
      UngroupedRest(deleted, deletes'', Deletions(pairs1) + Deletions(pairs2), rest);
      SettleAll(added, deleted, unique, Flat(nonUnique), left, pairs1, left2, pairs2);
      modified := modified + renames + renames2;
      added, deleted := left + left2, rest;
    }

    /** `detectContentRenames`. */
    method DetectContentRenames(files: Files) returns (ok: bool, ghost pairs: seq<(Change, Change)>)
      requires WellIndexed(files) && AllNamed(added) && AllNamed(deleted)
      modifies this
      ensures !ok ==> !Readable(files, old(deleted), old(added))
      ensures ok ==> modified == old(modified) + Renames(pairs) && Justified(files, renameScore, pairs)
      ensures ok ==> Conserved(old(deleted), deleted, Deletions(pairs)) && Conserved(old(added), added, Additions(pairs))
      ensures ok && renameLimit <= 0 ==> NothingSimilar(files, renameScore, deleted, added)
      ensures ok && renameLimit > 0 && (|old(added)| > renameLimit || |old(deleted)| > renameLimit) ==> pairs == []
    {
      hide HashOf, Named, Renames, Deletions, Additions, Similar, PairScore, Live;
      pairs := [];
      NoPairs();
      var cnt := if |added| > |deleted| then |added| else |deleted|;
      if renameLimit > 0 && cnt > renameLimit {
        assert modified + [] == modified;
        return true, pairs;
      }
      var okMatrix, matrix := BuildSimilarityMatrix(files, renameScore, deleted, added);
      if !okMatrix {
        return false, pairs;
      }
      ghost var srcs, dsts := deleted, added;
      assert forall i :: 0 <= i < |matrix| ==> matrix[i] in matrix;
      var ss, ds, renames, chosen := MatchGreedily(matrix, deleted, added);
      pairs := Zip(At(srcs, Rows(matrix, chosen)), At(dsts, Columns(matrix, chosen)));
      modified := modified + renames;
      added := CompactChanges(ds);
      deleted := CompactChanges(ss);
      PairsJustified(files, renameScore, srcs, dsts, matrix, chosen);
      forall i, j | 0 <= i < |deleted| && 0 <= j < |added| ensures !Similar(files, renameScore, deleted[i], added[j]) {
        LeftOver(files, renameScore, srcs, dsts, matrix, chosen, ss, ds, deleted[i], added[j]);
      }
      return true, pairs;
    }

    /** `detect`. */
    method Detect(files: Files) returns (ok: bool, result: seq<Change>, ghost pairs: seq<(Change, Change)>)
      requires WellIndexed(files) && AllNamed(added) && AllNamed(deleted) && NoRepeats(added) && NoRepeats(deleted)
      requires forall i :: 0 <= i < |modified| ==> modified[i].from.Something?
      requires forall i :: 0 <= i < |deleted| ==> deleted[i].from.Something?
      modifies this
      ensures !ok ==> !Readable(files, old(deleted), old(added))
      ensures ok ==> ByPath(result) && Justified(files, renameScore, pairs)
      ensures ok ==> modified == old(modified) + Renames(pairs) && multiset(result) == multiset(added) + multiset(deleted) + multiset(modified)
      ensures ok ==> Conserved(old(deleted), deleted, Deletions(pairs))
      ensures ok ==> Settled(old(added), added, pairs, DroppedIn(old(added), old(added), old(deleted)))
      ensures ok && !onlyExact && renameLimit <= 0 ==> NothingSimilar(files, renameScore, deleted, added)
    {
      hide HashOf, Named, Renames, Deletions, Additions, Similar, NoRepeats, DroppedIn, Settled;
      pairs := [];
      NoPairs();
      assert modified + [] == modified;
      if |added| > 0 && |deleted| > 0 {
        pairs := DetectExactRenames();
        ghost var exact := pairs;
        PartNamed(old(deleted), deleted, Deletions(exact));
        SettledNamed(old(added), added, exact, DroppedIn(old(added), old(added), old(deleted)));
        if !onlyExact {
          ghost var deleted1, added1 := deleted, added;
          var okContent, similar := DetectContentRenames(files);
          if !okContent {
            StillUnreadable(files, old(deleted), deleted1, old(added), added1, exact,
                            DroppedIn(old(added), old(added), old(deleted)));
            return false, [], pairs;
          }
          PairsConcat(exact, similar);
          SettleMore(old(added), added1, exact, DroppedIn(old(added), old(added), old(deleted)), added, similar);
          pairs := exact + similar;
          assert modified == old(modified) + (Renames(exact) + Renames(similar));
        }
      } else {
        NoneDropped(added, deleted);
      }
      result := added + deleted + modified;
      SettledNamed(old(added), added, pairs, DroppedIn(old(added), old(added), old(deleted)));
      NoneMalformed(old(deleted), old(modified), added, deleted, pairs);
      result := SortByPath(result);
      return true, result, pairs;
    }
  }

  lemma BalancedGrouped(all: seq<Change>, m: Groups, used: seq<Change>)
    requires Balanced(all, m, used)
    ensures Grouped(m)
  {
  }

  /** The two kinds of groups make up the additions. */
  lemma {:induction false} SplitParts(added: seq<Change>, m: Groups, unique: seq<Change>, several: seq<Change>)
    requires Balanced(added, m, []) && (forall h :: Get(m, h) == Group(added, h))
    requires Holds(m, {}, true, unique) && Holds(m, {}, false, several)
    requires AllNamed(added) && NoRepeats(added)
    ensures multiset(added) == multiset(unique) + multiset(several)
    ensures AllNamed(unique) && AllNamed(several) && NoRepeats(several)
    ensures forall i :: 0 <= i < |unique| ==> |Group(added, HashOf(unique[i]))| == 1
    ensures forall c :: c in several ==> |Group(added, HashOf(c))| != 1
  {
    hide HashOf, Named, Group, AllNamed, NoRepeats, Balanced, Holds, Get;
    forall c
      ensures multiset(added)[c] == multiset(unique)[c] + multiset(several)[c]
      ensures c in unique ==> |Group(added, HashOf(c))| == 1
      ensures c in several ==> |Group(added, HashOf(c))| != 1
    {
      SplitOne(added, m, unique, several, c);
    }
    assert forall i :: 0 <= i < |unique| ==> unique[i] in unique;
    PartOk(added, unique);
    PartOk(added, several);
  }

  lemma {:induction false} SplitOne(added: seq<Change>, m: Groups, unique: seq<Change>, several: seq<Change>, c: Change)
    requires Balanced(added, m, []) && Get(m, HashOf(c)) == Group(added, HashOf(c))
    requires Holds(m, {}, true, unique) && Holds(m, {}, false, several)
    ensures multiset(added)[c] == multiset(unique)[c] + multiset(several)[c]
    ensures c in unique ==> |Group(added, HashOf(c))| == 1
    ensures c in several ==> |Group(added, HashOf(c))| != 1
  {
    hide HashOf, Group, Get, Grouped;
    assert CountIn(m, c) + multiset([])[c] == multiset(added)[c];
    assert multiset(unique)[c] == CountOf(m, {}, true, c) && multiset(several)[c] == CountOf(m, {}, false, c);
  }

  lemma PartOk(all: seq<Change>, part: seq<Change>)
    requires multiset(part) <= multiset(all) && AllNamed(all) && NoRepeats(all)
    ensures AllNamed(part) && NoRepeats(part)
  {
    hide Named;
    forall i | 0 <= i < |part| ensures Named(part[i]) {
      assert part[i] in multiset(part);
      assert part[i] in multiset(all);
    }
    forall c ensures multiset(part)[c] <= 1 {
      assert multiset(part)[c] <= multiset(all)[c];
    }
  }

  lemma UngroupedRest(deleted: seq<Change>, m: Groups, used: seq<Change>, rest: seq<Change>)
    requires Balanced(deleted, m, used) && forall c :: multiset(rest)[c] == CountIn(m, c)
    ensures Conserved(deleted, rest, used)
  {
    hide HashOf;
    forall c ensures multiset(deleted)[c] == multiset(rest)[c] + multiset(used)[c] {
      assert CountIn(m, c) + multiset(used)[c] == multiset(deleted)[c];
    }
  }

  /** Only single additions are dropped. */
  lemma {:induction false} SettleAll(added: seq<Change>, deleted: seq<Change>, unique: seq<Change>,
                                     several: seq<Change>, left: seq<Change>, pairs: seq<(Change, Change)>,
                                     left2: seq<Change>, pairs2: seq<(Change, Change)>)
    requires multiset(added) == multiset(unique) + multiset(several)
    requires Settled(unique, left, pairs, DroppedIn(unique, added, deleted)) && Conserved(several, left2, Additions(pairs2))
    requires forall c :: c in several ==> |Group(added, HashOf(c))| != 1
    ensures Settled(added, left + left2, pairs + pairs2, DroppedIn(added, added, deleted))
  {
    hide HashOf, Group, DroppedIn, DroppedBy, Additions, Deletions, Renames;
    PairsConcat(pairs, pairs2);
    DroppedCounts(added, added, deleted);
    DroppedCounts(unique, added, deleted);
    forall c ensures multiset(DroppedIn(added, added, deleted))[c] == multiset(DroppedIn(unique, added, deleted))[c] {
      if IsDropped(c, added, deleted) {
        assert c !in several;
      }
    }
  }

  /** The matching of the similarity matrix pairs only similar changes. */
  lemma PairsJustified(files: Files, threshold: int, srcs: seq<Change>, dsts: seq<Change>, m: seq<Pair>, chosen: seq<nat>)
    requires InRange(m, srcs, dsts) && StableMatching(m, chosen)
    requires forall p :: p in m <==> InMatrix(files, threshold, srcs, dsts, p)
    ensures Justified(files, threshold, Zip(At(srcs, Rows(m, chosen)), At(dsts, Columns(m, chosen))))
  {
    hide HashOf, Similar, PairScore, Outdone;
    var pairs := Zip(At(srcs, Rows(m, chosen)), At(dsts, Columns(m, chosen)));
    forall i | 0 <= i < |pairs| ensures Similar(files, threshold, pairs[i].0, pairs[i].1) {
      assert m[chosen[i]] in m;
      assert pairs[i] == (srcs[m[chosen[i]].deleted], dsts[m[chosen[i]].added]);
    }
  }

  /** What the matching leaves on both sides is not similar. */
  lemma {:induction false} LeftOver(files: Files, threshold: int, srcs: seq<Change>, dsts: seq<Change>, m: seq<Pair>,
                                    chosen: seq<nat>, ss: Slots, ds: Slots, src: Change, dst: Change)
    requires InRange(m, srcs, dsts) && StableMatching(m, chosen)
    requires forall p :: p in m <==> InMatrix(files, threshold, srcs, dsts, p)
    requires CrossedOut(srcs, Rows(m, chosen), ss) && CrossedOut(dsts, Columns(m, chosen), ds)
    requires src in Live(ss) && dst in Live(ds)
    ensures !Similar(files, threshold, src, dst)
  {
    hide HashOf, PairScore, Outdone, Live, Comparable;
    var s := LiveFrom(ss, src);
    var d := LiveFrom(ds, dst);
    if Similar(files, threshold, src, dst) {
      NoneLeft(m, chosen, MatrixPair(files, threshold, srcs, dsts, s, d));
    }
  }

  ghost function MatrixPair(files: Files, threshold: int, srcs: seq<Change>, dsts: seq<Change>, s: nat, d: nat): (p: Pair)
    requires s < |srcs| && d < |dsts| && Similar(files, threshold, srcs[s], dsts[d])
    ensures p.deleted == s && p.added == d && InMatrix(files, threshold, srcs, dsts, p)
  {
    Pair(d, s, PairScore(files, srcs[s], dsts[d]))
  }

  lemma PartNamed(all: seq<Change>, left: seq<Change>, used: seq<Change>)
    requires Conserved(all, left, used) && AllNamed(all)
    ensures AllNamed(left)
  {
    hide Named;
    forall i | 0 <= i < |left| ensures Named(left[i]) {
      assert left[i] in multiset(left);
      assert left[i] in multiset(all);
    }
  }

  lemma SettledNamed(all: seq<Change>, left: seq<Change>, pairs: seq<(Change, Change)>, dropped: seq<Change>)
    requires Settled(all, left, pairs, dropped) && AllNamed(all)
    ensures AllNamed(left)
  {
    PartNamed(all, left, Additions(pairs) + dropped);
  }

  /** Files that cannot be read among what is left cannot be read at all. */
  lemma StillUnreadable(files: Files, deleted: seq<Change>, deleted': seq<Change>, added: seq<Change>, added': seq<Change>,
                        pairs: seq<(Change, Change)>, dropped: seq<Change>)
    requires Conserved(deleted, deleted', Deletions(pairs)) && Settled(added, added', pairs, dropped)
    requires !Readable(files, deleted', added')
    ensures !Readable(files, deleted, added)
  {
    hide HashOf, ModeOf, Additions, Deletions;
    if Readable(files, deleted, added) {
      forall i | 0 <= i < |deleted'| ensures deleted'[i] in deleted {
        assert deleted'[i] in multiset(deleted');
        assert deleted'[i] in multiset(deleted);
      }
      forall i | 0 <= i < |added'| ensures added'[i] in added {
        assert added'[i] in multiset(added');
        assert added'[i] in multiset(added);
      }
    }
  }

  lemma SettleMore(added: seq<Change>, left: seq<Change>, pairs: seq<(Change, Change)>, dropped: seq<Change>,
                   left2: seq<Change>, pairs2: seq<(Change, Change)>)
    requires Settled(added, left, pairs, dropped) && Conserved(left, left2, Additions(pairs2))
    ensures Settled(added, left2, pairs + pairs2, dropped)
  {
    PairsConcat(pairs, pairs2);
  }

  /** Without deletions nothing is dropped. */
  lemma {:induction false} NoneDropped(added: seq<Change>, deleted: seq<Change>)
    requires |added| == 0 || |deleted| == 0
    ensures Settled(added, added, [], DroppedIn(added, added, deleted))
  {
    NoneDroppedFrom(added, added, deleted);
  }

  lemma {:induction false} NoneDroppedFrom(s: seq<Change>, added: seq<Change>, deleted: seq<Change>)
    requires |s| == 0 || |deleted| == 0
    ensures DroppedIn(s, added, deleted) == []
  {
    if s != [] {
      NoneDroppedFrom(s[..|s| - 1], added, deleted);
    }
  }

  lemma NoneMalformed(deleted: seq<Change>, modified: seq<Change>, added': seq<Change>, deleted': seq<Change>,
                      pairs: seq<(Change, Change)>)
    requires Conserved(deleted, deleted', Deletions(pairs)) && AllNamed(added')
    requires forall i :: 0 <= i < |modified| ==> modified[i].from.Something?
    requires forall i :: 0 <= i < |deleted| ==> deleted[i].from.Something?
    ensures var r := added' + deleted' + (modified + Renames(pairs)); forall i :: 0 <= i < |r| ==> !Malformed(r[i])
  {
    forall i | 0 <= i < |deleted'| ensures deleted'[i].from.Something? {
      assert deleted'[i] in multiset(deleted');
      assert deleted'[i] in multiset(deleted);
    }
    forall i | 0 <= i < |pairs| ensures Renames(pairs)[i].from.Something? {
      assert Deletions(pairs)[i] in multiset(Deletions(pairs));
      assert Deletions(pairs)[i] in multiset(deleted);
    }
  }

  // --- The whole ------------------------------------------------------------------------------

  datatype Options = Options(renameScore: int, renameLimit: int, onlyExact: bool)

  datatype Result = Ok(changes: seq<Change>) | Failed

  datatype Action = Insert | Delete | Modify

  function ActionOf(c: Change): Action
    requires !Malformed(c)
  {
    if c.from.Nothing? then Insert else if c.to.Nothing? then Delete else Modify
  }

  /** The changes of one kind. */
  function Only(s: seq<Change>, a: Action): seq<Change>
    requires forall i :: 0 <= i < |s| ==> !Malformed(s[i])
  {
    if s == [] then []
    else if ActionOf(s[|s| - 1]) == a then Only(s[..|s| - 1], a) + [s[|s| - 1]]
    else Only(s[..|s| - 1], a)
  }

  lemma {:induction false} OnlyCounts(s: seq<Change>, a: Action)
    requires forall i :: 0 <= i < |s| ==> !Malformed(s[i])
    ensures forall c :: multiset(Only(s, a))[c] == if !Malformed(c) && ActionOf(c) == a then multiset(s)[c] else 0
    ensures forall i :: 0 <= i < |Only(s, a)| ==> !Malformed(Only(s, a)[i]) && ActionOf(Only(s, a)[i]) == a
  {
    hide Malformed, ActionOf;
    if s != [] {
      OnlyCounts(s[..|s| - 1], a);
      assert s == s[..|s| - 1] + [s[|s| - 1]];
    }
  }

  lemma {:induction false} OnlySum(s: seq<Change>)
    requires forall i :: 0 <= i < |s| ==> !Malformed(s[i])
    ensures multiset(s) == multiset(Only(s, Insert)) + multiset(Only(s, Delete)) + multiset(Only(s, Modify))
  {
    hide Only;
    OnlyCounts(s, Insert);
    OnlyCounts(s, Delete);
    OnlyCounts(s, Modify);
    forall c
      ensures multiset(s)[c] == multiset(Only(s, Insert))[c] + multiset(Only(s, Delete))[c] + multiset(Only(s, Modify))[c]
    {
      if Malformed(c) {
        assert c !in s;
      }
    }
  }

  /** How often an entry is the old or the new side of a change. */
  ghost function FromCount(s: seq<Change>, e: Side): nat {
    if s == [] then 0 else FromCount(s[..|s| - 1], e) + if s[|s| - 1].from == e then 1 else 0
  }

  ghost function ToCount(s: seq<Change>, e: Side): nat {
    if s == [] then 0 else ToCount(s[..|s| - 1], e) + if s[|s| - 1].to == e then 1 else 0
  }

  ghost function Froms(s: seq<Change>): seq<Side> { seq(|s|, i requires 0 <= i < |s| => s[i].from) }

  ghost function Tos(s: seq<Change>): seq<Side> { seq(|s|, i requires 0 <= i < |s| => s[i].to) }

  /** The counts say how often a side occurs. */
  lemma {:induction false} CountsAre(s: seq<Change>, e: Side)
    ensures FromCount(s, e) == multiset(Froms(s))[e] && ToCount(s, e) == multiset(Tos(s))[e]
  {
    if s != [] {
      var n := |s| - 1;
      CountsAre(s[..n], e);
      assert Froms(s) == Froms(s[..n]) + [s[n].from] && Tos(s) == Tos(s[..n]) + [s[n].to];
    }
  }

  lemma {:induction false} CountConcat(s: seq<Change>, t: seq<Change>, e: Side)
    ensures FromCount(s + t, e) == FromCount(s, e) + FromCount(t, e)
    ensures ToCount(s + t, e) == ToCount(s, e) + ToCount(t, e)
  {
    if t == [] {
      assert s + t == s;
    } else {
      CountConcat(s, t[..|t| - 1], e);
      assert (s + t)[..|s + t| - 1] == s + t[..|t| - 1];
    }
  }

  lemma RemoveAt(t: seq<Change>, i: nat)
    requires i < |t|
    ensures multiset(t[..i] + t[i + 1..]) == multiset(t) - multiset{t[i]}
  {
    assert t == t[..i] + ([t[i]] + t[i + 1..]);
  }

  lemma {:induction false} CountRemoved(t: seq<Change>, i: nat, e: Side)
    requires i < |t|
    ensures FromCount(t, e) == FromCount(t[..i] + t[i + 1..], e) + FromCount([t[i]], e)
    ensures ToCount(t, e) == ToCount(t[..i] + t[i + 1..], e) + ToCount([t[i]], e)
  {
    hide FromCount, ToCount;
    assert t == t[..i] + ([t[i]] + t[i + 1..]);
    CountConcat(t[..i], [t[i]] + t[i + 1..], e);
    CountConcat([t[i]], t[i + 1..], e);
    CountConcat(t[..i], t[i + 1..], e);
  }

  lemma {:induction false} CountPermuted(s: seq<Change>, t: seq<Change>, e: Side)
    requires multiset(s) == multiset(t)
    ensures FromCount(s, e) == FromCount(t, e) && ToCount(s, e) == ToCount(t, e)
  {
    hide FromCount, ToCount;
    if s != [] {
      var n := |s| - 1;
      assert s[n] in multiset(s) && s[n] in multiset(t);
      var i :| 0 <= i < |t| && t[i] == s[n];
      RemoveAt(t, i);
      RemoveAt(s, n);
      assert s[..n] + s[n + 1..] == s[..n];
      CountPermuted(s[..n], t[..i] + t[i + 1..], e);
      CountRemoved(t, i, e);
      CountRemoved(s, n, e);
    } else {
      assert |multiset(t)| == 0;
      assert t == [];
    }
  }

  lemma {:induction false} RenamedCounts(pairs: seq<(Change, Change)>, e: Side)
    ensures FromCount(Renames(pairs), e) == FromCount(Deletions(pairs), e)
    ensures ToCount(Renames(pairs), e) == ToCount(Additions(pairs), e)
  {
    if pairs != [] {
      var n := |pairs| - 1;
      RenamedCounts(pairs[..n], e);
      assert Renames(pairs)[..n] == Renames(pairs[..n]);
      assert Deletions(pairs)[..n] == Deletions(pairs[..n]) && Additions(pairs)[..n] == Additions(pairs[..n]);
    }
  }

  lemma {:induction false} OneSided(s: seq<Change>, e: Side)
    requires e.Something?
    ensures (forall c :: c in s ==> c.from.Nothing?) ==> FromCount(s, e) == 0
    ensures (forall c :: c in s ==> c.to.Nothing?) ==> ToCount(s, e) == 0
  {
    if s != [] {
      OneSided(s[..|s| - 1], e);
      assert s[|s| - 1] in s;
      assert forall c :: c in s[..|s| - 1] ==> c in s;
    }
  }

  /** A list of changes without repetitions, each with the path of a file. */
  ghost predicate WellFormed(changes: seq<Change>) {
    NoRepeats(changes) && forall i :: 0 <= i < |changes| ==> Malformed(changes[i]) || Named(changes[i])
  }

  /** The additions that get lost. */
  ghost function Lost(changes: seq<Change>): seq<Change>
    requires forall i :: 0 <= i < |changes| ==> !Malformed(changes[i])
  {
    DroppedIn(Only(changes, Insert), Only(changes, Insert), Only(changes, Delete))
  }

  /** What rename detection makes of changes: pairs of a deletion and an addition become
      renames, some additions get lost, and the rest stays. */
  ghost predicate Renamed(changes: seq<Change>, result: seq<Change>, pairs: seq<(Change, Change)>)
    requires forall i :: 0 <= i < |changes| ==> !Malformed(changes[i])
  {
    && multiset(Deletions(pairs)) <= multiset(Only(changes, Delete))
    && multiset(Additions(pairs)) + multiset(Lost(changes)) <= multiset(Only(changes, Insert))
    && multiset(result) + multiset(Deletions(pairs)) + multiset(Additions(pairs)) + multiset(Lost(changes))
       == multiset(changes) + multiset(Renames(pairs))
  }

  /** Every old side comes out as often as it went in; so does every new side, except for the
      additions that get lost. */
  lemma {:induction false} SidesConserved(changes: seq<Change>, result: seq<Change>, pairs: seq<(Change, Change)>,
                                          e: Side)
    requires forall i :: 0 <= i < |changes| ==> !Malformed(changes[i])
    requires Renamed(changes, result, pairs) && e.Something?
    ensures FromCount(result, e) == FromCount(changes, e)
    ensures ToCount(result, e) + ToCount(Lost(changes), e) == ToCount(changes, e)
  {
    hide FromCount, ToCount, Deletions, Additions, Renames, Lost, Only;
    var (d, a, l, r) := (Deletions(pairs), Additions(pairs), Lost(changes), Renames(pairs));
    CountPermuted(result + d + a + l, changes + r, e);
    CountConcat(result + d + a, l, e);
    CountConcat(result + d, a, e);
    CountConcat(result, d, e);
    CountConcat(changes, r, e);
    RenamedCounts(pairs, e);
    OnlyCounts(changes, Insert);
    OnlyCounts(changes, Delete);
    forall c | c in a || c in l ensures c.from.Nothing? {
      assert c in multiset(a) || c in multiset(l);
      assert c in multiset(Only(changes, Insert));
    }
    forall c | c in d ensures c.to.Nothing? {
      assert c in multiset(d);
      assert c in multiset(Only(changes, Delete));
    }
    OneSided(d, e);
    OneSided(a, e);
    OneSided(l, e);
  }

  /** `DetectRenames`. */
  method DetectRenames(changes: seq<Change>, files: Files, opts: Options)
    returns (r: Result, ghost pairs: seq<(Change, Change)>)
    requires WellFormed(changes) && WellIndexed(files)
    ensures r.Failed? ==> (exists i :: 0 <= i < |changes| && Malformed(changes[i])) || !Readable(files, changes, changes)
    ensures r.Ok? ==> forall i :: 0 <= i < |changes| ==> !Malformed(changes[i])
    ensures r.Ok? ==> ByPath(r.changes) && Renamed(changes, r.changes, pairs) && Justified(files, opts.renameScore, pairs)
    ensures r.Ok? && !opts.onlyExact && opts.renameLimit <= 0 ==>
              forall s, d :: s in r.changes && d in r.changes && IsDelete(s) && IsInsert(d) ==> !Similar(files, opts.renameScore, s, d)
  {
    hide HashOf, Named, Similar, NoRepeats, Renames, Deletions, Additions, DroppedIn, Settled;
    pairs := [];
    var detector := new Detector(opts.renameScore, opts.renameLimit, opts.onlyExact);
    for i := 0 to |changes|
      invariant forall k :: 0 <= k < i ==> !Malformed(changes[k])
      invariant detector.added == Only(changes[..i], Insert)
      invariant detector.deleted == Only(changes[..i], Delete)
      invariant detector.modified == Only(changes[..i], Modify)
    {
      if Malformed(changes[i]) {
        return Failed, pairs;
      }
      assert changes[..i + 1][..i] == changes[..i];
      match ActionOf(changes[i])
      case Insert => detector.added := detector.added + [changes[i]];
      case Delete => detector.deleted := detector.deleted + [changes[i]];
      case Modify => detector.modified := detector.modified + [changes[i]];
    }
    assert changes[..|changes|] == changes;
    ghost var adds, dels, mods := detector.added, detector.deleted, detector.modified;
    OnlyOk(changes, Insert);
    OnlyOk(changes, Delete);
    OnlyOk(changes, Modify);
    var ok, result, ps := detector.Detect(files);
    if !ok {
      OnlyUnreadable(files, changes);
      return Failed, pairs;
    }
    pairs := ps;
    OnlySum(changes);
    AccountFor(changes, result, detector.added, detector.deleted, pairs);
    if !opts.onlyExact && opts.renameLimit <= 0 {
      forall s, d | s in result && d in result && IsDelete(s) && IsInsert(d) ensures !Similar(files, opts.renameScore, s, d) {
        LeftSides(changes, result, detector.added, detector.deleted, pairs, s, d);
      }
    }
    return Ok(result), pairs;
  }

  lemma {:induction false} OnlyOk(changes: seq<Change>, a: Action)
    requires WellFormed(changes) && forall i :: 0 <= i < |changes| ==> !Malformed(changes[i])
    ensures AllNamed(Only(changes, a)) && NoRepeats(Only(changes, a))
    ensures forall i :: 0 <= i < |Only(changes, a)| ==> Only(changes, a)[i] in changes
    ensures forall i :: 0 <= i < |Only(changes, a)| ==> ActionOf(Only(changes, a)[i]) == a
  {
    hide Named, Only;
    OnlyCounts(changes, a);
    assert AllNamed(changes);
    forall c ensures multiset(Only(changes, a))[c] <= multiset(changes)[c] {
    }
    PartOk(changes, Only(changes, a));
    forall i | 0 <= i < |Only(changes, a)| ensures Only(changes, a)[i] in changes {
      assert Only(changes, a)[i] in multiset(Only(changes, a));
      assert Only(changes, a)[i] in multiset(changes);
    }
  }

  lemma {:induction false} OnlyUnreadable(files: Files, changes: seq<Change>)
    requires WellFormed(changes) && forall i :: 0 <= i < |changes| ==> !Malformed(changes[i])
    requires !Readable(files, Only(changes, Delete), Only(changes, Insert))
    ensures !Readable(files, changes, changes)
  {
    hide HashOf, ModeOf, Only, NoRepeats, Named;
    OnlyOk(changes, Delete);
    OnlyOk(changes, Insert);
  }

  lemma {:induction false} AccountFor(changes: seq<Change>, result: seq<Change>, added: seq<Change>,
                                      deleted: seq<Change>, pairs: seq<(Change, Change)>)
    requires forall i :: 0 <= i < |changes| ==> !Malformed(changes[i])
    requires multiset(changes) == multiset(Only(changes, Insert)) + multiset(Only(changes, Delete)) + multiset(Only(changes, Modify))
    requires Conserved(Only(changes, Delete), deleted, Deletions(pairs)) && Settled(Only(changes, Insert), added, pairs, Lost(changes))
    requires multiset(result) == multiset(added) + multiset(deleted) + multiset(Only(changes, Modify) + Renames(pairs))
    ensures Renamed(changes, result, pairs)
  {
    hide Only, Lost, Deletions, Additions, Renames;
  }

  /** Deletions and additions in the result are those left over. */
  lemma {:induction false} LeftSides(changes: seq<Change>, result: seq<Change>, added: seq<Change>,
                                     deleted: seq<Change>, pairs: seq<(Change, Change)>, s: Change, d: Change)
    requires forall i :: 0 <= i < |changes| ==> !Malformed(changes[i])
    requires Conserved(Only(changes, Delete), deleted, Deletions(pairs)) && Settled(Only(changes, Insert), added, pairs, Lost(changes))
    requires multiset(result) == multiset(added) + multiset(deleted) + multiset(Only(changes, Modify) + Renames(pairs))
    requires s in result && d in result && IsDelete(s) && IsInsert(d)
    ensures s in deleted && d in added
  {
    hide Only, Lost;
    OnlyCounts(changes, Insert);
    OnlyCounts(changes, Delete);
    OnlyCounts(changes, Modify);
    forall c | c in Only(changes, Modify) + Renames(pairs) ensures c.from.Something? && c.to.Something? {
      TwoSides(changes, added, deleted, pairs, c);
    }
    assert s in multiset(result) && d in multiset(result);
    forall c | c in deleted ensures c in multiset(Only(changes, Delete)) {
      assert c in multiset(deleted);
    }
  }

  lemma {:induction false} TwoSides(changes: seq<Change>, added: seq<Change>, deleted: seq<Change>,
                                    pairs: seq<(Change, Change)>, c: Change)
    requires forall i :: 0 <= i < |changes| ==> !Malformed(changes[i])
    requires Conserved(Only(changes, Delete), deleted, Deletions(pairs)) && Settled(Only(changes, Insert), added, pairs, Lost(changes))
    requires c in Only(changes, Modify) + Renames(pairs)
    ensures c.from.Something? && c.to.Something?
  {
    hide Only, Lost;
    OnlyCounts(changes, Insert);
    OnlyCounts(changes, Delete);
    OnlyCounts(changes, Modify);
    if c in Renames(pairs) {
      var i :| 0 <= i < |pairs| && Renames(pairs)[i] == c;
      var (x, y) := pairs[i];
      assert Deletions(pairs)[i] == x && Additions(pairs)[i] == y;
      assert x in multiset(Deletions(pairs)) && y in multiset(Additions(pairs));
      assert x in multiset(Only(changes, Delete)) && y in multiset(Only(changes, Insert));
    }
  }

  lemma {:induction false} ToCounted(s: seq<Change>, c: Change)
    requires c in s
    ensures ToCount(s, c.to) > 0
  {
    if s[|s| - 1] != c {
      ToCounted(s[..|s| - 1], c);
    }
  }

  lemma {:induction false} LostFrom(changes: seq<Change>)
    requires forall i :: 0 <= i < |changes| ==> !Malformed(changes[i])
    ensures Lost(changes) != [] ==>
              exists c :: c in changes && IsInsert(c) && IsDropped(c, Only(changes, Insert), Only(changes, Delete))
  {
    hide IsDropped, Only, DroppedIn;
    var adds, dels := Only(changes, Insert), Only(changes, Delete);
    DroppedCounts(adds, adds, dels);
    OnlyCounts(changes, Insert);
    if Lost(changes) != [] {
      var c := Lost(changes)[0];
      assert c in multiset(Lost(changes));
      assert c in multiset(adds);
      assert c in multiset(changes);
    }
  }

  /** New sides are conserved exactly when no addition is dropped, which can be seen from the
      changes: an addition alone with its hash, several deletions with it, and the best name
      among them, if any, with another mode. */
  lemma {:induction false} ConservedExactly(changes: seq<Change>, result: seq<Change>, pairs: seq<(Change, Change)>)
    requires forall i :: 0 <= i < |changes| ==> !Malformed(changes[i])
    requires Renamed(changes, result, pairs)
    ensures (forall e: Side :: e.Something? ==> ToCount(result, e) == ToCount(changes, e)) <==>
            (forall c :: c in changes && IsInsert(c) ==> !IsDropped(c, Only(changes, Insert), Only(changes, Delete)))
  {
    hide Renamed, ToCount, IsDropped, Only, DroppedIn;
    var adds, dels := Only(changes, Insert), Only(changes, Delete);
    DroppedCounts(adds, adds, dels);
    OnlyCounts(changes, Insert);
    if c :| c in changes && IsInsert(c) && IsDropped(c, adds, dels) {
      assert c in multiset(adds);
      assert c in multiset(Lost(changes));
      ToCounted(Lost(changes), c);
      SidesConserved(changes, result, pairs, c.to);
    } else {
      LostFrom(changes);
      forall e: Side | e.Something? ensures ToCount(result, e) == ToCount(changes, e) {
        SidesConserved(changes, result, pairs, e);
        NoCount(e);
      }
    }
  }

  lemma {:induction false} NoCount(e: Side)
    ensures ToCount([], e) == 0
  {
  }

  /** An addition that is lost: two deletions have its content, and no name is alike.  Its file
      is in no change of the result. */
  method LostExample() returns (changes: seq<Change>, r: Result)
    ensures r.Ok? && ToCount(changes, Something("d/x", REGULAR, 1)) == 1
    ensures ToCount(r.changes, Something("d/x", REGULAR, 1)) == 0
  {
    hide ByPath, Renamed, Justified, Similar, Lost, ToCount, FromCount, Only;
    var a := Change(Nothing, Something("d/x", REGULAR, 1));
    var b, c := Change(Something("y", REGULAR, 1), Nothing), Change(Something("z", REGULAR, 1), Nothing);
    changes := [b, c, a];
    OneLost(a, b, c);
    var files := map[1 := File(0, Indexed([], 0, 0))];
    ghost var pairs;
    r, pairs := DetectRenames(changes, files, Options(60, 0, true));
    SidesConserved(changes, r.changes, pairs, a.to);
  }

  lemma {:induction false} OnlyPush(s: seq<Change>, c: Change, a: Action)
    requires !Malformed(c) && forall i :: 0 <= i < |s| ==> !Malformed(s[i])
    ensures Only([], a) == []
    ensures Only(s + [c], a) == if ActionOf(c) == a then Only(s, a) + [c] else Only(s, a)
  {
    assert (s + [c])[..|s|] == s;
  }

  lemma {:induction false} OnlyThree(a: Change, b: Change, c: Change, kind: Action)
    requires !Malformed(a) && !Malformed(b) && !Malformed(c)
    ensures Only([b, c, a], kind) ==
              (if ActionOf(b) == kind then [b] else []) + (if ActionOf(c) == kind then [c] else [])
              + (if ActionOf(a) == kind then [a] else [])
  {
    hide Only, ActionOf;
    OnlyPush([], b, kind);
    assert [] + [b] == [b];
    OnlyPush([b], c, kind);
    assert [b] + [c] == [b, c];
    OnlyPush([b, c], a, kind);
    assert [b, c] + [a] == [b, c, a];
  }

  lemma OneLost(a: Change, b: Change, c: Change)
    requires a == Change(Nothing, Something("d/x", REGULAR, 1))
    requires b == Change(Something("y", REGULAR, 1), Nothing) && c == Change(Something("z", REGULAR, 1), Nothing)
    ensures ToCount([b, c, a], a.to) == ToCount(Lost([b, c, a]), a.to) == 1
  {
    hide IsDropped, DroppedIn, Only;
    assert [b, c, a][..2] == [b, c] && [b, c][..1] == [b] && [b][..0] == [];
    OnlyThree(a, b, c, Insert);
    OnlyThree(a, b, c, Delete);
    assert Only([b, c, a], Insert) == [a] && Only([b, c, a], Delete) == [b, c];
    DroppedAlone(a, b, c);
    assert Lost([b, c, a]) == [a];
    hide Lost;
    NoCount(a.to);
    assert ToCount([b], a.to) == 0;
    assert ToCount([b, c], a.to) == 0;
    assert ToCount([b, c, a], a.to) == 1;
    assert [a][..0] == [];
  }

  lemma DroppedAlone(a: Change, b: Change, c: Change)
    requires a == Change(Nothing, Something("d/x", REGULAR, 1))
    requires b == Change(Something("y", REGULAR, 1), Nothing) && c == Change(Something("z", REGULAR, 1), Nothing)
    ensures IsDropped(a, [a], [b, c]) && DroppedIn([a], [a], [b, c]) == [a]
  {
    NamesUnlike();
    hide NameSimilarity.Score;
    assert [b, c][..1] == [b] && [b][..0] == [] && [a][..0] == [];
    assert Group([a], 1) == [a] && Group([b], 1) == [b] && Group([b, c], 1) == [b, c];
    assert Best(a, [b]) == None && BestScore(a, [b]) == 0;
    assert Best(a, [b, c]) == None;
  }

  lemma NamesUnlike()
    ensures NameSimilarity.Score("d/x", "y") == 0 && NameSimilarity.Score("d/x", "z") == 0
  {
    assert "d/x"[..2] == "d/";
    assert NameSimilarity.DirLen("d/x") == 2;
    assert NameSimilarity.DirLen("y") == 0 && NameSimilarity.DirLen("z") == 0;
  }
}
