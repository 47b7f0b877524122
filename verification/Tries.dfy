/** Merkle tries and the stack of sibling frames that iterates over them
    (utils/merkletrie/noder, internal/frame and iter.go).  No node asks to be skipped. */
module Tries {
  import opened Ordering
  import opened Wrappers

  type Hash = nat

  /** A `Noder`: a file, or a directory with its children in any order. */
  datatype Node = Node(name: string, hash: Hash, isDir: bool, children: seq<Node>)

  /** A file of a trie: its path and its hash. */
  datatype Entry = Entry(path: Path, hash: Hash)

  /** Files have no children, and no two children share a name. */
  ghost predicate WellFormed(n: Node) {
    && (!n.isDir ==> n.children == [])
    && (forall i, j :: 0 <= i < j < |n.children| ==> n.children[i].name != n.children[j].name)
    && (forall i :: 0 <= i < |n.children| ==> WellFormed(n.children[i]))
  }

  /** The same files, found further down. */
  ghost function Under(prefix: Path, s: set<Entry>): set<Entry> {
    set e | e in s :: Entry(prefix + e.path, e.hash)
  }

  /** The files at and below a node, with paths relative to the node. */
  ghost function Files(n: Node): set<Entry>
    decreases n, 0
  {
    if n.isDir then FilesIn(n.children) else {Entry([], n.hash)}
  }

  /** The files below a list of siblings, with paths relative to their parent. */
  ghost function FilesIn(nodes: seq<Node>): set<Entry>
    decreases nodes
  {
    if nodes == [] then {}
    else Under([nodes[0].name], Files(nodes[0])) + FilesIn(nodes[1..])
  }

  /** What each hash stands for: a kind of node and the files below it. */
  type Meaning = Hash -> (bool, set<Entry>)

  /** Every node's hash stands for its kind and its files. */
  ghost predicate Honest(n: Node, meaning: Meaning) {
    && meaning(n.hash) == (n.isDir, Files(n))
    && forall i :: 0 <= i < |n.children| ==> Honest(n.children[i], meaning)
  }

  ghost function Size(n: Node): nat
    decreases n, 0
  {
    1 + SizeOf(n.children)
  }

  ghost function SizeOf(nodes: seq<Node>): nat
    decreases nodes
  {
    if nodes == [] then 0 else Size(nodes[0]) + SizeOf(nodes[1..])
  }

  lemma UnderHas(prefix: Path, s: set<Entry>, e: Entry)
    requires e in s
    ensures Entry(prefix + e.path, e.hash) in Under(prefix, s)
  {
  }

  lemma UnderUnion(prefix: Path, s: set<Entry>, t: set<Entry>)
    ensures Under(prefix, s + t) == Under(prefix, s) + Under(prefix, t)
  {
  }

  lemma UnderUnder(p: Path, q: Path, s: set<Entry>)
    ensures Under(p, Under(q, s)) == Under(p + q, s)
  {
    forall e | e in s ensures Entry(p + (q + e.path), e.hash) == Entry((p + q) + e.path, e.hash) {
      assert p + (q + e.path) == (p + q) + e.path;
    }
    forall e | e in Under(p + q, s) ensures e in Under(p, Under(q, s)) {
      var d :| d in s && e == Entry((p + q) + d.path, d.hash);
      UnderHas(q, s, d);
      UnderHas(p, Under(q, s), Entry(q + d.path, d.hash));
    }
    forall e | e in Under(p, Under(q, s)) ensures e in Under(p + q, s) {
      var d :| d in Under(q, s) && e == Entry(p + d.path, d.hash);
      var c :| c in s && d == Entry(q + c.path, c.hash);
      UnderHas(p + q, s, c);
    }
  }

  // --- Frames: siblings in alphabetical order -------------------------------------------

  ghost predicate Ascending(nodes: seq<Node>) {
    forall i, j :: 0 <= i < j < |nodes| ==> Below(nodes[i].name, nodes[j].name)
  }

  ghost predicate Apart(nodes: seq<Node>) {
    forall i, j :: 0 <= i < j < |nodes| ==> nodes[i].name != nodes[j].name
  }

  /** Where a node with name `name` belongs among sorted siblings. */
  function InsertByName(n: Node, sorted: seq<Node>): seq<Node> {
    if sorted == [] then [n]
    else if Below(n.name, sorted[0].name) then [n] + sorted
    else [sorted[0]] + InsertByName(n, sorted[1..])
  }

  /** `frame.New`: the siblings sorted by name. */
  function Sorted(nodes: seq<Node>): seq<Node> {
    if nodes == [] then [] else InsertByName(nodes[0], Sorted(nodes[1..]))
  }

  lemma {:induction false} InsertFacts(n: Node, s: seq<Node>)
    ensures forall m :: m in InsertByName(n, s) <==> m == n || m in s
    ensures FilesIn(InsertByName(n, s)) == Under([n.name], Files(n)) + FilesIn(s)
    ensures SizeOf(InsertByName(n, s)) == Size(n) + SizeOf(s)
    ensures InsertByName(n, s) != []
  {
    if s != [] && !Below(n.name, s[0].name) {
      InsertFacts(n, s[1..]);
      assert InsertByName(n, s)[1..] == InsertByName(n, s[1..]);
    } else {
      assert ([n] + s)[1..] == s;
    }
  }

  lemma {:induction false} InsertAscending(n: Node, s: seq<Node>)
    requires Ascending(s) && forall m :: m in s ==> m.name != n.name
    ensures Ascending(InsertByName(n, s))
  {
    if s != [] {
      if Below(n.name, s[0].name) {
        forall j | 0 <= j < |s| ensures Below(n.name, s[j].name) {
          if j > 0 {
            BelowTransitive(n.name, s[0].name, s[j].name);
          }
        }
      } else {
        BelowTotal(n.name, s[0].name);
        InsertAscending(n, s[1..]);
        InsertFacts(n, s[1..]);
        var r := InsertByName(n, s[1..]);
        forall j | 0 <= j < |r| ensures Below(s[0].name, r[j].name) {
          assert r[j] in r;
          if r[j] != n {
            var k :| 0 <= k < |s[1..]| && s[1..][k] == r[j];
            assert s[k + 1] == r[j];
          }
        }
      }
    }
  }

  /** Sorting keeps the nodes, and orders them strictly when their names differ. */
  lemma {:induction false} SortedFacts(nodes: seq<Node>)
    ensures forall m :: m in Sorted(nodes) <==> m in nodes
    ensures FilesIn(Sorted(nodes)) == FilesIn(nodes)
    ensures SizeOf(Sorted(nodes)) == SizeOf(nodes)
    ensures nodes != [] ==> Sorted(nodes) != []
    ensures Apart(nodes) ==> Ascending(Sorted(nodes))
  {
    if nodes != [] {
      var rest := nodes[1..];
      SortedFacts(rest);
      InsertFacts(nodes[0], Sorted(rest));
      assert forall m :: m in nodes <==> m == nodes[0] || m in rest;
      if Apart(nodes) {
        assert forall i :: 0 <= i < |rest| ==> rest[i] == nodes[i + 1];
        assert Apart(rest);
        InsertAscending(nodes[0], Sorted(rest));
      }
    }
  }

  // --- The frame stack --------------------------------------------------------------------

  type Stack = seq<seq<Node>>

  /** The nodes from the bottom frame to the current one. */
  function Heads(stack: Stack): (r: seq<Node>)
    requires forall i :: 0 <= i < |stack| ==> stack[i] != []
    ensures |r| == |stack| && forall i :: 0 <= i < |r| ==> r[i] == stack[i][0]
  {
    seq(|stack|, i requires 0 <= i < |stack| => stack[i][0])
  }

  function Names(nodes: seq<Node>): (r: Path)
    ensures |r| == |nodes| && forall i :: 0 <= i < |r| ==> r[i] == nodes[i].name
  {
    seq(|nodes|, i requires 0 <= i < |nodes| => nodes[i].name)
  }

  ghost predicate FrameOk(frame: seq<Node>, meaning: Meaning) {
    && frame != [] && Ascending(frame)
    && forall i :: 0 <= i < |frame| ==> WellFormed(frame[i]) && Honest(frame[i], meaning)
  }

  ghost predicate StackOk(stack: Stack, meaning: Meaning) {
    forall i :: 0 <= i < |stack| ==> FrameOk(stack[i], meaning)
  }

  /** The names from the base down to the current node. */
  ghost function At(base: Path, stack: Stack): Path
    requires forall i :: 0 <= i < |stack| ==> stack[i] != []
  {
    base + Names(Heads(stack))
  }

  /** The files still ahead once the current node and all below it have been passed. */
  ghost function After(base: Path, stack: Stack): set<Entry>
    requires forall i :: 0 <= i < |stack| ==> stack[i] != []
  {
    if stack == [] then {}
    else
      var below := stack[..|stack| - 1];
      Under(At(base, below), FilesIn(stack[|stack| - 1][1..])) + After(base, below)
  }

  /** The files at and below the current node. */
  ghost function Here(base: Path, stack: Stack): set<Entry>
    requires stack != [] && forall i :: 0 <= i < |stack| ==> stack[i] != []
  {
    Under(At(base, stack), Files(stack[|stack| - 1][0]))
  }

  /** All the files still ahead. */
  ghost function Ahead(base: Path, stack: Stack): set<Entry>
    requires forall i :: 0 <= i < |stack| ==> stack[i] != []
  {
    if stack == [] then {} else Here(base, stack) + After(base, stack)
  }

  /** `Iter.drop`: removes the current node and every frame that becomes empty. */
  function Drop(stack: Stack): Stack
    requires forall i :: 0 <= i < |stack| ==> stack[i] != []
  {
    if stack == [] then []
    else
      var n := |stack| - 1;
      if |stack[n]| > 1 then stack[..n] + [stack[n][1..]] else Drop(stack[..n])
  }

  ghost function Nodes(stack: Stack): nat
    requires forall i :: 0 <= i < |stack| ==> stack[i] != []
  {
    if stack == [] then 0
    else SizeOf(stack[|stack| - 1][1..]) + Nodes(stack[..|stack| - 1])
  }

  /** The number of nodes still to be visited. */
  ghost function Load(stack: Stack): nat
    requires forall i :: 0 <= i < |stack| ==> stack[i] != []
  {
    if stack == [] then 0 else Size(stack[|stack| - 1][0]) + Nodes(stack)
  }

  lemma AtExtend(base: Path, below: Stack, frame: seq<Node>)
    requires frame != [] && forall i :: 0 <= i < |below| ==> below[i] != []
    ensures At(base, below + [frame]) == At(base, below) + [frame[0].name]
  {
    var s := below + [frame];
    assert Heads(s) == Heads(below) + [frame[0]];
    assert Names(Heads(s)) == Names(Heads(below)) + [frame[0].name];
  }

  /** The files below a whole frame are those here and those of the later siblings. */
  lemma {:induction false} FrameAhead(base: Path, below: Stack, frame: seq<Node>)
    requires frame != [] && forall i :: 0 <= i < |below| ==> below[i] != []
    ensures Ahead(base, below + [frame]) == Under(At(base, below), FilesIn(frame)) + After(base, below)
    ensures After(base, below + [frame]) == Under(At(base, below), FilesIn(frame[1..])) + After(base, below)
    ensures Load(below + [frame]) == SizeOf(frame) + Nodes(below)
  {
    var s, p := below + [frame], At(base, below);
    assert s[..|s| - 1] == below;
    AtExtend(base, below, frame);
    UnderUnder(p, [frame[0].name], Files(frame[0]));
    UnderUnion(p, Under([frame[0].name], Files(frame[0])), FilesIn(frame[1..]));
  }

  /** Dropping the current node leaves exactly what comes after it. */
  lemma {:induction false} DropAhead(base: Path, stack: Stack)
    requires stack != [] && forall i :: 0 <= i < |stack| ==> stack[i] != []
    ensures forall i :: 0 <= i < |Drop(stack)| ==> Drop(stack)[i] != []
    ensures Ahead(base, Drop(stack)) == After(base, stack)
    ensures Load(Drop(stack)) == Nodes(stack) < Load(stack)
  {
    var n := |stack| - 1;
    var below, top := stack[..n], stack[n];
    assert stack == below + [top];
    FrameAhead(base, below, top);
    if |top| > 1 {
      FrameAhead(base, below, top[1..]);
    } else {
      assert top[1..] == [];
      assert Under(At(base, below), {}) == {};
      if below != [] {
        DropAhead(base, below);
      }
    }
  }

  lemma {:induction false} DropOk(stack: Stack, meaning: Meaning)
    requires StackOk(stack, meaning)
    ensures StackOk(Drop(stack), meaning)
  {
    if stack != [] {
      var n := |stack| - 1;
      if |stack[n]| > 1 {
        var f := stack[n][1..];
        assert forall i :: 0 <= i < |f| ==> f[i] == stack[n][i + 1];
      } else {
        DropOk(stack[..n], meaning);
      }
    }
  }

  /** Going down into a directory leaves the same files ahead, and one node less. */
  lemma DescendAhead(base: Path, stack: Stack)
    requires stack != [] && forall i :: 0 <= i < |stack| ==> stack[i] != []
    requires stack[|stack| - 1][0].isDir && stack[|stack| - 1][0].children != []
    ensures var kids := Sorted(stack[|stack| - 1][0].children);
            && kids != []
            && Ahead(base, stack + [kids]) == Ahead(base, stack)
            && Load(stack + [kids]) == Load(stack) - 1
  {
    var cur := stack[|stack| - 1][0];
    SortedFacts(cur.children);
    FrameAhead(base, stack, Sorted(cur.children));
  }

  lemma DescendOk(stack: Stack, meaning: Meaning)
    requires stack != [] && StackOk(stack, meaning) && stack[|stack| - 1][0].children != []
    ensures StackOk(stack + [Sorted(stack[|stack| - 1][0].children)], meaning)
  {
    var cur := stack[|stack| - 1][0];
    assert FrameOk(stack[|stack| - 1], meaning) && WellFormed(cur) && Honest(cur, meaning);
    SortedFacts(cur.children);
    var kids := Sorted(cur.children);
    forall i | 0 <= i < |kids| ensures WellFormed(kids[i]) && Honest(kids[i], meaning) {
      assert kids[i] in cur.children;
      var j :| 0 <= j < |cur.children| && cur.children[j] == kids[i];
    }
  }

  // --- Where the files ahead lie --------------------------------------------------------------

  /** `p` forks off above `at`: it comes after `at` and everything below `at`. */
  ghost predicate Later(at: Path, p: Path) {
    exists i: nat :: ForksBelow(at, p, i)
  }

  lemma {:induction false} FilesInNames(nodes: seq<Node>, e: Entry)
    requires e in FilesIn(nodes)
    ensures e.path != [] && exists k :: 0 <= k < |nodes| && nodes[k].name == e.path[0]
  {
    if e in Under([nodes[0].name], Files(nodes[0])) {
      assert e.path[0] == nodes[0].name;
    } else {
      FilesInNames(nodes[1..], e);
      var k :| 0 <= k < |nodes[1..]| && nodes[1..][k].name == e.path[0];
      assert nodes[k + 1].name == e.path[0];
    }
  }

  /** Whatever comes after the current node forks off above it. */
  lemma {:induction false} AfterIsLater(base: Path, stack: Stack, e: Entry)
    requires forall i :: 0 <= i < |stack| ==> stack[i] != [] && Ascending(stack[i])
    requires e in After(base, stack)
    ensures Later(At(base, stack), e.path)
  {
    var n := |stack| - 1;
    var below, top := stack[..n], stack[n];
    assert stack == below + [top];
    AtExtend(base, below, top);
    var at := At(base, below);
    if e in Under(at, FilesIn(top[1..])) {
      var d :| d in FilesIn(top[1..]) && e == Entry(at + d.path, d.hash);
      FilesInNames(top[1..], d);
      var k :| 0 <= k < |top[1..]| && top[1..][k].name == d.path[0];
      assert top[1..][k] == top[k + 1];
      assert (at + d.path)[..|at|] == at == (at + [top[0].name])[..|at|];
      assert ForksBelow(at + [top[0].name], e.path, |at|);
    } else {
      AfterIsLater(base, below, e);
      var i: nat :| ForksBelow(at, e.path, i);
      assert (at + [top[0].name])[..i] == at[..i];
      assert ForksBelow(at + [top[0].name], e.path, i);
    }
  }

  lemma HereIsBelow(base: Path, stack: Stack, e: Entry)
    requires stack != [] && (forall i :: 0 <= i < |stack| ==> stack[i] != []) && e in Here(base, stack)
    ensures At(base, stack) <= e.path
  {
  }
}
