/** The history that a blame run looks at, and what it means for a commit to be
    blamed for a line.

    The file is followed under one path.  The line diff is a parameter: all that is
    known of it is that its hunks spell out the two texts it was given. */
module BlameHistory {
  import opened Graph
  import opened Wrappers

  type Line = string

  datatype Op = Equal | Insert | Delete

  datatype Hunk = Hunk(op: Op, lines: seq<Line>)

  datatype File = Absent | Present(lines: seq<Line>)

  datatype Commit = Commit(parents: seq<Hash>, committed: int, authored: int, file: File)

  datatype History = History(commits: map<Hash, Commit>, diff: (seq<Line>, seq<Line>) -> seq<Hunk>)

  function Parents(h: History): (g: Edges)
    ensures g.Keys == h.commits.Keys
  {
    map c | c in h.commits :: h.commits[c].parents
  }

  predicate HasFile(h: History, c: Hash) {
    c in h.commits && h.commits[c].file.Present?
  }

  function Lines(h: History, c: Hash): seq<Line>
    requires HasFile(h, c)
  {
    h.commits[c].file.lines
  }

  /** The parents of `c` that hold the file, in order. */
  function WithFile(h: History, parents: seq<Hash>): (r: seq<Hash>)
    ensures |r| <= |parents| && forall p :: p in r <==> p in parents && HasFile(h, p)
  {
    if parents == [] then []
    else
      var last := parents[|parents| - 1];
      WithFile(h, parents[..|parents| - 1]) + if HasFile(h, last) then [last] else []
  }

  // --- The line diff ----------------------------------------------------------

  /** The text a list of hunks was computed from: everything but the insertions. */
  function OldText(hunks: seq<Hunk>): seq<Line> {
    if hunks == [] then []
    else if hunks[0].op.Insert? then OldText(hunks[1..])
    else hunks[0].lines + OldText(hunks[1..])
  }

  /** The text a list of hunks leads to: everything but the deletions. */
  function NewText(hunks: seq<Hunk>): seq<Line> {
    if hunks == [] then []
    else if hunks[0].op.Delete? then NewText(hunks[1..])
    else hunks[0].lines + NewText(hunks[1..])
  }

  ghost predicate DiffSpellsOutTexts(diff: (seq<Line>, seq<Line>) -> seq<Hunk>) {
    forall a, b :: OldText(diff(a, b)) == a && NewText(diff(a, b)) == b
  }

  /** `n` lines kept from old line `prev` onwards. */
  function Kept(prev: nat, n: nat): (r: seq<Option<nat>>)
    ensures |r| == n && forall l :: 0 <= l < n ==> r[l] == Some(prev + l)
  {
    seq(n, l requires 0 <= l < n => Some(prev + l))
  }

  /** `n` lines without a counterpart. */
  function New(n: nat): (r: seq<Option<nat>>)
    ensures |r| == n && forall l :: 0 <= l < n ==> r[l] == None
  {
    seq(n, l requires 0 <= l < n => None)
  }

  /** For every new line, the old line it is kept from, if any.  The hunks start at old
      line `prev`. */
  function Alignment(hunks: seq<Hunk>, prev: nat): seq<Option<nat>> {
    if hunks == [] then []
    else
      var n := |hunks[0].lines|;
      match hunks[0].op
      case Equal => Kept(prev, n) + Alignment(hunks[1..], prev + n)
      case Insert => New(n) + Alignment(hunks[1..], prev)
      case Delete => Alignment(hunks[1..], prev + n)
  }

  /** Every new line is aligned, and a line that is kept has the same text on both sides. */
  lemma {:induction false} AlignmentSameText(hunks: seq<Hunk>, prev: nat)
    ensures |Alignment(hunks, prev)| == |NewText(hunks)|
    ensures forall j :: 0 <= j < |NewText(hunks)| && Alignment(hunks, prev)[j].Some? ==>
              var k := Alignment(hunks, prev)[j].value;
              prev <= k && k - prev < |OldText(hunks)| && OldText(hunks)[k - prev] == NewText(hunks)[j]
  {
    if hunks != [] {
      var n, rest := |hunks[0].lines|, hunks[1..];
      AlignmentSameText(rest, if hunks[0].op.Insert? then prev else prev + n);
    }
  }

  /** The line of parent `p` that line `j` of `c` is carried over from, if any: the same
      line when the two blobs are equal, and what the diff keeps otherwise. */
  function LineMatch(h: History, c: Hash, p: Hash, j: nat): Option<nat>
    requires HasFile(h, c) && HasFile(h, p)
  {
    if Lines(h, p) == Lines(h, c) then
      if j < |Lines(h, c)| then Some(j) else None
    else
      var a := Alignment(h.diff(Lines(h, p), Lines(h, c)), 0);
      if j < |a| then a[j] else None
  }

  lemma LineMatchSameText(h: History, c: Hash, p: Hash, j: nat)
    requires HasFile(h, c) && HasFile(h, p) && DiffSpellsOutTexts(h.diff)
    requires LineMatch(h, c, p, j).Some?
    ensures j < |Lines(h, c)|
    ensures var k := LineMatch(h, c, p, j).value; k < |Lines(h, p)| && Lines(h, p)[k] == Lines(h, c)[j]
  {
    if Lines(h, p) != Lines(h, c) {
      var hunks := h.diff(Lines(h, p), Lines(h, c));
      assert OldText(hunks) == Lines(h, p) && NewText(hunks) == Lines(h, c);
      AlignmentSameText(hunks, 0);
    }
  }

  // --- Where a line comes from --------------------------------------------------

  /** A line of the file in some commit. */
  datatype Place = Place(commit: Hash, line: nat)

  /** Line `a` was taken over unchanged from line `b` of a parent. */
  ghost predicate TakenOver(h: History, a: Place, b: Place) {
    && HasFile(h, a.commit) && HasFile(h, b.commit)
    && b.commit in h.commits[a.commit].parents
    && LineMatch(h, a.commit, b.commit, a.line) == Some(b.line)
  }

  ghost predicate Trail(h: History, t: seq<Place>) {
    && |t| > 0
    && forall i :: 0 <= i < |t| - 1 ==> TakenOver(h, t[i], t[i + 1])
  }

  /** Line `a` was carried over from line `b` through any number of commits. */
  ghost predicate Carried(h: History, a: Place, b: Place) {
    exists t :: Trail(h, t) && t[0] == a && t[|t| - 1] == b
  }

  /** No parent has the line: this commit introduced it. */
  ghost predicate Introduced(h: History, a: Place)
    requires HasFile(h, a.commit)
  {
    forall p :: p in h.commits[a.commit].parents && HasFile(h, p) ==> LineMatch(h, a.commit, p, a.line).None?
  }

  /** Line `a` is carried over from a line that `origin` introduced. */
  ghost predicate Blamed(h: History, a: Place, origin: Hash) {
    exists line ::
      HasFile(h, origin) && Carried(h, a, Place(origin, line)) && Introduced(h, Place(origin, line))
  }

  lemma CarriedSelf(h: History, a: Place)
    ensures Carried(h, a, a)
  {
    assert Trail(h, [a]);
  }

  lemma CarriedStep(h: History, a: Place, b: Place)
    requires TakenOver(h, a, b)
    ensures Carried(h, a, b)
  {
    assert Trail(h, [a, b]);
  }

  lemma CarriedTrans(h: History, a: Place, b: Place, c: Place)
    requires Carried(h, a, b) && Carried(h, b, c)
    ensures Carried(h, a, c)
  {
    var p :| Trail(h, p) && p[0] == a && p[|p| - 1] == b;
    var q :| Trail(h, q) && q[0] == b && q[|q| - 1] == c;
    var r := p + q[1..];
    forall i | 0 <= i < |r| - 1
      ensures TakenOver(h, r[i], r[i + 1])
    {
      if i >= |p| - 1 {
        assert r[i] == q[i - |p| + 1] && r[i + 1] == q[i - |p| + 2];
      }
    }
    assert Trail(h, r);
  }

  lemma BlamedThrough(h: History, a: Place, b: Place, origin: Hash)
    requires Carried(h, a, b) && Blamed(h, b, origin)
    ensures Blamed(h, a, origin)
  {
    var line :| HasFile(h, origin) && Carried(h, b, Place(origin, line)) && Introduced(h, Place(origin, line));
    CarriedTrans(h, a, b, Place(origin, line));
  }

  lemma BlamedSelf(h: History, a: Place)
    requires HasFile(h, a.commit) && Introduced(h, a)
    ensures Blamed(h, a, a.commit)
  {
    CarriedSelf(h, a);
    assert Place(a.commit, a.line) == a;
  }

  /** A carried line keeps its text, and it comes from an ancestor. */
  lemma {:induction false} TrailSameText(h: History, t: seq<Place>, k: nat)
    requires DiffSpellsOutTexts(h.diff) && Trail(h, t) && k < |t|
    requires HasFile(h, t[0].commit) && t[0].line < |Lines(h, t[0].commit)|
    ensures HasFile(h, t[k].commit) && t[k].line < |Lines(h, t[k].commit)|
    ensures Lines(h, t[k].commit)[t[k].line] == Lines(h, t[0].commit)[t[0].line]
    ensures Reaches(Parents(h), t[0].commit, t[k].commit)
  {
    if k == 0 {
      ReachesSelf(Parents(h), t[0].commit);
    } else {
      TrailSameText(h, t, k - 1);
      assert TakenOver(h, t[k - 1], t[k]);
      LineMatchSameText(h, t[k - 1].commit, t[k].commit, t[k - 1].line);
      ReachesEdge(Parents(h), t[k - 1].commit, t[k].commit);
      ReachesTrans(Parents(h), t[0].commit, t[k - 1].commit, t[k].commit);
    }
  }

  /** The commit blamed for a line is an ancestor (or the commit itself) whose file
      contains that line's text, at a line none of its parents has. */
  lemma BlamedMeans(h: History, a: Place, origin: Hash)
    requires DiffSpellsOutTexts(h.diff) && Blamed(h, a, origin)
    requires HasFile(h, a.commit) && a.line < |Lines(h, a.commit)|
    ensures HasFile(h, origin) && Reaches(Parents(h), a.commit, origin)
    ensures exists line :: 0 <= line < |Lines(h, origin)| && Lines(h, origin)[line] == Lines(h, a.commit)[a.line]
                           && Introduced(h, Place(origin, line))
  {
    var line :| HasFile(h, origin) && Carried(h, a, Place(origin, line)) && Introduced(h, Place(origin, line));
    var t :| Trail(h, t) && t[0] == a && t[|t| - 1] == Place(origin, line);
    TrailSameText(h, t, |t| - 1);
  }
}
