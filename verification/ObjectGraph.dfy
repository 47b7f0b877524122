/** The object store as a graph: commits refer to a tree and to parents, trees to their
    entries, tags to a target.  A hash that is not a key of the store is missing. */
module ObjectGraph {
  import opened Graph

  /** A file mode as Git writes it. */
  type Mode = bv32

  const DIR: Mode := 0x4000
  const REGULAR: Mode := 0x81a4
  const EXECUTABLE: Mode := 0x81ed
  const SUBMODULE: Mode := 0xe000

  datatype TreeEntry = TreeEntry(mode: Mode, hash: Hash)

  datatype Object =
    | Commit(tree: Hash, parents: seq<Hash>)
    | Tree(entries: seq<TreeEntry>)
    | Tag(target: Hash)
    | Blob

  type Store = map<Hash, Object>

  ghost predicate IsTree(s: Store, h: Hash) {
    h in s && s[h].Tree?
  }

  ghost predicate IsCommit(s: Store, h: Hash) {
    h in s && s[h].Commit?
  }

  /** What a tree entry refers to has the kind its mode says, if it is there at all. */
  ghost predicate EntryOk(s: Store, e: TreeEntry) {
    e.hash in s ==>
      if e.mode == DIR then s[e.hash].Tree? else if e.mode == SUBMODULE then s[e.hash].Commit? else s[e.hash].Blob?
  }

  /** Objects refer to objects of the right kind.  References may dangle. */
  ghost predicate Sound(s: Store) {
    && (forall h :: IsCommit(s, h) ==> s[h].tree in s ==> s[s[h].tree].Tree?)
    && (forall h, i :: IsCommit(s, h) && 0 <= i < |s[h].parents| ==> s[h].parents[i] in s ==> s[s[h].parents[i]].Commit?)
    && (forall h, i :: IsTree(s, h) && 0 <= i < |s[h].entries| ==> EntryOk(s, s[h].entries[i]))
  }

  /** The hashes in tree entries, without or with those of submodules. */
  function Hashes(entries: seq<TreeEntry>, submodules: bool): seq<Hash> {
    if entries == [] then []
    else if entries[0].mode == SUBMODULE && !submodules then Hashes(entries[1..], submodules)
    else [entries[0].hash] + Hashes(entries[1..], submodules)
  }

  function Links(o: Object, submodules: bool): seq<Hash> {
    match o
    case Commit(tree, parents) => [tree] + parents
    case Tree(entries) => Hashes(entries, submodules)
    case Tag(target) => [target]
    case Blob => []
  }

  ghost function LinkGraph(s: Store, submodules: bool): Edges {
    map h | h in s :: Links(s[h], submodules)
  }

  function CommitGraph(s: Store): Edges {
    map h | h in s && s[h].Commit? :: s[h].parents
  }

  ghost predicate Counts(e: TreeEntry, submodules: bool) {
    e.mode != SUBMODULE || submodules
  }

  lemma {:induction false} HashesHave(entries: seq<TreeEntry>, submodules: bool, i: nat)
    requires i < |entries| && Counts(entries[i], submodules)
    ensures entries[i].hash in Hashes(entries, submodules)
  {
    if i > 0 {
      HashesHave(entries[1..], submodules, i - 1);
    }
  }

  lemma {:induction false} HashFrom(entries: seq<TreeEntry>, submodules: bool, h: Hash) returns (i: nat)
    requires h in Hashes(entries, submodules)
    ensures i < |entries| && entries[i].hash == h && Counts(entries[i], submodules)
  {
    if Counts(entries[0], submodules) && entries[0].hash == h {
      i := 0;
    } else {
      i := HashFrom(entries[1..], submodules, h);
      i := i + 1;
    }
  }

  /** The edges of the graph are what the objects say: a commit leads to its tree and its parents,
      a tree to its entries, without or with those of submodules, a tag to its target. */
  lemma LinksAre(s: Store, submodules: bool, a: Hash, b: Hash)
    ensures Edge(LinkGraph(s, submodules), a, b) <==>
            a in s &&
            match s[a] {
              case Commit(tree, parents) => b == tree || b in parents
              case Tree(entries) =>
                exists i :: 0 <= i < |entries| && entries[i].hash == b && (entries[i].mode == SUBMODULE ==> submodules)
              case Tag(target) => b == target
              case Blob => false
            }
  {
    if a in s && s[a].Tree? {
      var entries := s[a].entries;
      if b in Hashes(entries, submodules) {
        var _ := HashFrom(entries, submodules, b);
      }
      if i :| 0 <= i < |entries| && entries[i].hash == b && (entries[i].mode == SUBMODULE ==> submodules) {
        HashesHave(entries, submodules, i);
      }
    }
  }

  /** Reachable from one of several objects. */
  ghost predicate ReachableFrom(s: Store, submodules: bool, roots: set<Hash>, x: Hash) {
    exists r :: r in roots && Reaches(LinkGraph(s, submodules), r, x)
  }

  lemma ReachesLink(s: Store, submodules: bool, a: Hash, b: Hash, c: Hash)
    requires Reaches(LinkGraph(s, submodules), a, b) && b in s && c in Links(s[b], submodules)
    ensures Reaches(LinkGraph(s, submodules), a, c)
  {
    var g := LinkGraph(s, submodules);
    ReachesEdge(g, b, c);
    ReachesTrans(g, a, b, c);
  }

  /** History is part of the object graph. */
  lemma CommitReaches(s: Store, submodules: bool, a: Hash, b: Hash)
    requires Reaches(CommitGraph(s), a, b)
    ensures Reaches(LinkGraph(s, submodules), a, b)
  {
    var p :| PathFromTo(CommitGraph(s), p, a, b);
    var g := LinkGraph(s, submodules);
    forall i | 0 <= i < |p| - 1 ensures Edge(g, p[i], p[i + 1]) {
      assert Edge(CommitGraph(s), p[i], p[i + 1]);
    }
    assert PathFromTo(g, p, a, b);
  }

  /** What history leads to is a commit, if it is there at all. */
  lemma HistoryKind(s: Store, p: seq<Hash>, k: nat)
    requires Sound(s) && IsPath(CommitGraph(s), p) && IsCommit(s, p[0]) && k < |p|
    ensures p[k] in s ==> s[p[k]].Commit?
  {
    if k > 0 {
      assert Edge(CommitGraph(s), p[k - 1], p[k]);
      var i :| 0 <= i < |s[p[k - 1]].parents| && s[p[k - 1]].parents[i] == p[k];
    }
  }

  /** A gap in the history is a gap in the object graph. */
  lemma HistoryGap(s: Store, submodules: bool, a: Hash)
    requires Sound(s) && IsCommit(s, a) && !CompleteFrom(CommitGraph(s), a)
    ensures !CompleteFrom(LinkGraph(s, submodules), a)
  {
    var g := CommitGraph(s);
    var b :| Reaches(g, a, b) && b !in g;
    var p :| PathFromTo(g, p, a, b);
    CommitReaches(s, submodules, a, b);
    HistoryKind(s, p, |p| - 1);
  }
}
