/** Which of several parents with the same line is credited for it: the first, as the order of
    the parents in the commit has it, all the way down. */
module BlamePreference {
  import opened Graph
  import opened BlameHistory
  import opened Wrappers

  /** The parents of a commit that have the file, in order.  Their positions are the numbers
      under which their answers are entered. */
  function Sources(h: History, c: Hash): (r: seq<Hash>)
    requires c in h.commits
    ensures forall p :: p in r <==> p in h.commits[c].parents && HasFile(h, p)
    ensures forall k :: 0 <= k < |r| ==> HasFile(h, r[k]) && r[k] in h.commits[c].parents
  {
    var r := WithFile(h, h.commits[c].parents);
    assert forall k :: 0 <= k < |r| ==> r[k] in r;
    r
  }

  /** The line of source `k` that line `j` is carried over from, if any. */
  function MatchAt(h: History, c: Hash, k: nat, j: nat): Option<nat>
    requires HasFile(h, c) && k < |Sources(h, c)|
  {
    LineMatch(h, c, Sources(h, c)[k], j)
  }

  // --- The order of the sources ---------------------------------------------------------------

  /** `pos` are the positions of the parents with the file, and `r` are those parents. */
  ghost predicate InOrder(h: History, parents: seq<Hash>, r: seq<Hash>, pos: seq<nat>) {
    && |pos| == |r|
    && (forall k :: 0 <= k < |r| ==> pos[k] < |parents| && parents[pos[k]] == r[k])
    && (forall k, l :: 0 <= k < l < |pos| ==> pos[k] < pos[l])
    && (forall i :: 0 <= i < |parents| && HasFile(h, parents[i]) ==> i in pos)
  }

  lemma {:induction false} WithFileInOrder(h: History, parents: seq<Hash>) returns (pos: seq<nat>)
    ensures InOrder(h, parents, WithFile(h, parents), pos)
  {
    pos := [];
    if parents != [] {
      var n := |parents| - 1;
      var before := WithFileInOrder(h, parents[..n]);
      pos := before + if HasFile(h, parents[n]) then [n] else [];
      forall i | 0 <= i < |parents| && HasFile(h, parents[i]) ensures i in pos {
        if i < n {
          assert parents[..n][i] == parents[i];
          assert i in before;
        } else {
          assert pos[|pos| - 1] == i;
        }
      }
    }
  }

  /** The sources come in the order of the parents in the commit, and none is left out. */
  lemma SourcesInOrder(h: History, c: Hash) returns (pos: seq<nat>)
    requires c in h.commits
    ensures InOrder(h, h.commits[c].parents, Sources(h, c), pos)
  {
    pos := WithFileInOrder(h, h.commits[c].parents);
  }

  // --- The preference -------------------------------------------------------------------------

  /** The parent at position `i` has line `j`. */
  ghost predicate HasLine(h: History, c: Hash, i: nat, j: nat)
    requires HasFile(h, c) && i < |h.commits[c].parents|
  {
    var p := h.commits[c].parents[i];
    HasFile(h, p) && LineMatch(h, c, p, j).Some?
  }

  /** The position of the first parent from the `i`-th on that has line `j`; the number of parents
      if there is none. */
  ghost function FirstParent(h: History, c: Hash, j: nat, i: nat): (r: nat)
    requires HasFile(h, c) && i <= |h.commits[c].parents|
    ensures i <= r <= |h.commits[c].parents|
    ensures r < |h.commits[c].parents| ==> HasLine(h, c, r, j)
    ensures forall k :: i <= k < r ==> !HasLine(h, c, k, j)
    decreases |h.commits[c].parents| - i
  {
    if i == |h.commits[c].parents| || HasLine(h, c, i, j) then i else FirstParent(h, c, j, i + 1)
  }

  /** The commit to be credited for line `j` of `c`: follow the first parent that has the line. */
  ghost function Preferred(h: History, c: Hash, j: nat): Hash
    requires HasFile(h, c)
    decreases Rank(Parents(h), c)
  {
    var ps, i := h.commits[c].parents, FirstParent(h, c, j, 0);
    if i < |ps| && Rank(Parents(h), ps[i]) < Rank(Parents(h), c) then
      Preferred(h, ps[i], LineMatch(h, c, ps[i], j).value)
    else c
  }

  /** In an acyclic history, a line that no parent has is credited to the commit itself, any other
      one like the line of the first parent that has it. */
  lemma {:induction false} PreferredFollows(h: History, c: Hash, j: nat, i: nat)
    requires HasFile(h, c) && Acyclic(Parents(h)) && i <= |h.commits[c].parents|
    requires forall k :: 0 <= k < i ==> !HasLine(h, c, k, j)
    requires i < |h.commits[c].parents| ==> HasLine(h, c, i, j)
    ensures var ps := h.commits[c].parents;
            Preferred(h, c, j) == if i < |ps| then Preferred(h, ps[i], LineMatch(h, c, ps[i], j).value) else c
  {
    hide LineMatch, Rank;
    if i < |h.commits[c].parents| {
      assert Edge(Parents(h), c, h.commits[c].parents[i]);
      RankDecreases(Parents(h), c, h.commits[c].parents[i]);
    }
  }

  /** The same in terms of the sources. */
  lemma {:induction false} PreferredIs(h: History, c: Hash, j: nat, k: nat)
    requires HasFile(h, c) && Acyclic(Parents(h)) && k <= |Sources(h, c)|
    requires forall i :: 0 <= i < k ==> MatchAt(h, c, i, j).None?
    requires k < |Sources(h, c)| ==> MatchAt(h, c, k, j).Some?
    ensures Preferred(h, c, j) ==
              if k < |Sources(h, c)| then Preferred(h, Sources(h, c)[k], MatchAt(h, c, k, j).value) else c
  {
    hide LineMatch, Preferred, Acyclic;
    var ps := h.commits[c].parents;
    var pos := SourcesInOrder(h, c);
    var first := if k < |pos| then pos[k] else |ps|;
    forall i | 0 <= i < first ensures !HasLine(h, c, i, j) {
      if HasFile(h, ps[i]) {
        var l :| 0 <= l < |pos| && pos[l] == i;
        assert l < k;
        assert MatchAt(h, c, l, j).None?;
      }
    }
    PreferredFollows(h, c, j, first);
  }

  /** The first source from the `k`-th on that has line `j`; their number if there is none. */
  ghost function FirstSharing(h: History, c: Hash, j: nat, k: nat): (r: nat)
    requires HasFile(h, c) && k <= |Sources(h, c)|
    ensures k <= r <= |Sources(h, c)|
    ensures r < |Sources(h, c)| ==> MatchAt(h, c, r, j).Some?
    ensures forall i :: k <= i < r ==> MatchAt(h, c, i, j).None?
    decreases |Sources(h, c)| - k
  {
    if k == |Sources(h, c)| || MatchAt(h, c, k, j).Some? then k else FirstSharing(h, c, j, k + 1)
  }

  // --- Files that stay the same ---------------------------------------------------------------

  ghost predicate SameStep(h: History, a: Hash, b: Hash) {
    HasFile(h, a) && HasFile(h, b) && b in h.commits[a].parents && Lines(h, a) == Lines(h, b)
  }

  ghost predicate SamePath(h: History, t: seq<Hash>) {
    |t| > 0 && forall i :: 0 <= i < |t| - 1 ==> SameStep(h, t[i], t[i + 1])
  }

  /** The file is the same all the way from `b` to `a`. */
  ghost predicate SameReach(h: History, a: Hash, b: Hash) {
    exists t :: SamePath(h, t) && t[0] == a && t[|t| - 1] == b
  }

  lemma SameReachSelf(h: History, a: Hash)
    ensures SameReach(h, a, a)
  {
    assert SamePath(h, [a]);
  }

  lemma SameReachTrans(h: History, a: Hash, b: Hash, c: Hash)
    requires SameReach(h, a, b) && SameReach(h, b, c)
    ensures SameReach(h, a, c)
  {
    var p :| SamePath(h, p) && p[0] == a && p[|p| - 1] == b;
    var q :| SamePath(h, q) && q[0] == b && q[|q| - 1] == c;
    var r := p + q[1..];
    forall i | 0 <= i < |r| - 1 ensures SameStep(h, r[i], r[i + 1]) {
      if i >= |p| - 1 {
        assert r[i] == q[i - |p| + 1] && r[i + 1] == q[i - |p| + 2];
      }
    }
    assert SamePath(h, r);
  }

  lemma SameReachStep(h: History, a: Hash, b: Hash)
    requires SameStep(h, a, b)
    ensures SameReach(h, a, b)
  {
    assert SamePath(h, [a, b]);
  }

  lemma {:induction false} SamePathLines(h: History, t: seq<Hash>, k: nat)
    requires SamePath(h, t) && k < |t| && HasFile(h, t[0])
    ensures HasFile(h, t[k]) && Lines(h, t[k]) == Lines(h, t[0])
    ensures Reaches(Parents(h), t[0], t[k])
  {
    if k == 0 {
      ReachesSelf(Parents(h), t[0]);
    } else {
      SamePathLines(h, t, k - 1);
      assert SameStep(h, t[k - 1], t[k]);
      ReachesEdge(Parents(h), t[k - 1], t[k]);
      ReachesTrans(Parents(h), t[0], t[k - 1], t[k]);
    }
  }

  lemma SameReachLines(h: History, a: Hash, b: Hash)
    requires SameReach(h, a, b) && HasFile(h, a)
    ensures HasFile(h, b) && Lines(h, b) == Lines(h, a) && Reaches(Parents(h), a, b)
  {
    var t :| SamePath(h, t) && t[0] == a && t[|t| - 1] == b;
    SamePathLines(h, t, |t| - 1);
  }

  // --- When the preference is kept ------------------------------------------------------------

  /** Source `k` has the file of `c` itself. */
  ghost predicate Twin(h: History, c: Hash, k: nat) {
    HasFile(h, c) && k < |Sources(h, c)| && Lines(h, Sources(h, c)[k]) == Lines(h, c)
  }

  /** Two sources with the file of `c` got it from one commit. */
  ghost predicate Meet(h: History, c: Hash, i: nat, j: nat) {
    && i < j && Twin(h, c, i) && Twin(h, c, j)
    && exists q :: SameReach(h, Sources(h, c)[i], q) && SameReach(h, Sources(h, c)[j], q)
  }

  ghost predicate Collapses(h: History, c: Hash) {
    exists i: nat, j: nat :: Meet(h, c, i, j)
  }

  /** Source `m` has the file of `c`, and it got it from a commit that another source, of `c` or of
      a commit on the way, got it from too. */
  ghost predicate Collapsible(h: History, c: Hash, m: nat) {
    && Twin(h, c, m)
    && ((exists j: nat :: Meet(h, c, m, j)) || exists e :: SameReach(h, Sources(h, c)[m], e) && Collapses(h, e))
  }

  ghost predicate Shares(h: History, c: Hash, k: nat)
    requires HasFile(h, c) && k < |Sources(h, c)|
  {
    exists j: nat :: MatchAt(h, c, k, j).Some?
  }

  /** Lines of the two commits are credited alike. */
  ghost predicate PrefSame(h: History, a: Hash, b: Hash) {
    && HasFile(h, a) && HasFile(h, b) && Lines(h, a) == Lines(h, b)
    && forall j :: 0 <= j < |Lines(h, a)| ==> Preferred(h, a, j) == Preferred(h, b, j)
  }

  /** Wherever items may collapse, the commit they pass over is credited like the source they
      came from. */
  ghost predicate Safe(h: History, start: Hash) {
    forall c, m: nat :: Reaches(Parents(h), start, c) && Collapsible(h, c, m) ==> PrefSame(h, c, Sources(h, c)[m])
  }

  /** Passing over `c` for its twin source `m` credits the same commits if and only if, for each
      line, the first source that has it is credited like source `m`. */
  lemma {:induction false} PassingOver(h: History, c: Hash, m: nat)
    requires Acyclic(Parents(h)) && Twin(h, c, m)
    ensures PrefSame(h, c, Sources(h, c)[m]) <==>
            forall j, k :: 0 <= j < |Lines(h, c)| && 0 <= k <= m && FirstSharing(h, c, j, 0) == k ==>
              Preferred(h, Sources(h, c)[k], MatchAt(h, c, k, j).value) == Preferred(h, Sources(h, c)[m], j)
  {
    hide Preferred, FirstSharing;
    forall j | 0 <= j < |Lines(h, c)|
      ensures var k := FirstSharing(h, c, j, 0);
              k <= m && Preferred(h, c, j) == Preferred(h, Sources(h, c)[k], MatchAt(h, c, k, j).value)
    {
      assert MatchAt(h, c, m, j).Some?;
      PreferredIs(h, c, j, FirstSharing(h, c, j, 0));
    }
  }

  /** It is enough that none of the sources before such a source has any of the lines. */
  lemma NoneBeforeIsSafe(h: History, start: Hash)
    requires Acyclic(Parents(h))
    requires forall c, m: nat, k: nat ::
               Reaches(Parents(h), start, c) && Collapsible(h, c, m) && k < m ==> !Shares(h, c, k)
    ensures Safe(h, start)
  {
    hide Preferred, SameReach, Reaches;
    forall c, m: nat | Reaches(Parents(h), start, c) && Collapsible(h, c, m)
      ensures PrefSame(h, c, Sources(h, c)[m])
    {
      forall j | 0 <= j < |Lines(h, c)| ensures Preferred(h, c, j) == Preferred(h, Sources(h, c)[m], j) {
        forall i | 0 <= i < m ensures MatchAt(h, c, i, j).None? {
          assert !Shares(h, c, i);
        }
        PreferredIs(h, c, j, m);
      }
    }
  }

  /** It is enough that no commit has two sources with its own file. */
  lemma OneTwinIsSafe(h: History, start: Hash)
    requires forall c, i: nat, j: nat :: Twin(h, c, i) && Twin(h, c, j) ==> i == j
    ensures Safe(h, start)
  {
    hide PrefSame, SameReach;
    assert forall c, i: nat, j: nat :: !Meet(h, c, i, j);
  }

  /** A commit whose only source has its file. */
  lemma OnlySourceSame(h: History, c: Hash, p: Hash)
    requires HasFile(h, c) && Acyclic(Parents(h)) && Sources(h, c) == [p] && Lines(h, p) == Lines(h, c)
    ensures PrefSame(h, c, p)
  {
    hide Preferred;
    forall j | 0 <= j < |Lines(h, c)| ensures Preferred(h, c, j) == Preferred(h, p, j) {
      PreferredIs(h, c, j, 0);
    }
  }

  /** Going one collapse further up. */
  lemma CollapsibleAbove(h: History, d: Hash, m: nat, c: Hash, n: nat)
    requires Twin(h, d, m) && SameReach(h, Sources(h, d)[m], c) && Collapsible(h, c, n)
    ensures Collapsible(h, d, m)
  {
    hide SameReach, LineMatch;
    var p := Sources(h, d)[m];
    if j: nat :| Meet(h, c, n, j) {
      assert Collapses(h, c);
    } else {
      var e :| SameReach(h, Sources(h, c)[n], e) && Collapses(h, e);
      SameReachStep(h, c, Sources(h, c)[n]);
      SameReachTrans(h, p, c, Sources(h, c)[n]);
      SameReachTrans(h, p, Sources(h, c)[n], e);
    }
  }
}
