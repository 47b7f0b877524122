/** Laying out a flat index as nested trees, still unsorted and without hashes.  A path is the list of
    its names; clean paths are told apart by that. */
module TreeLayout {
  import opened Ordering
  import opened Graph
  import opened ObjectGraph

  datatype Entry = Entry(name: string, mode: Mode, hash: Hash)

  type Tree = seq<Entry>

  /** What the index has under a path. */
  datatype Leaf = Leaf(mode: Mode, hash: Hash)

  datatype IndexEntry = IndexEntry(path: Path, leaf: Leaf)

  type Index = map<Path, Leaf>

  // --- Order in a tree ------------------------------------------------------------------------

  /** Directories are sorted as if their names ended in a slash. */
  function SortName(e: Entry): string { if e.mode == DIR then e.name + "/" else e.name }

  ghost predicate InOrder(t: Tree) {
    forall i, j :: 0 <= i < j < |t| ==> !Below(SortName(t[j]), SortName(t[i]))
  }

  ghost predicate NamesApart(t: Tree) {
    forall i, j :: 0 <= i < j < |t| ==> t[i].name != t[j].name
  }

  /** The order that Git asks for, spelled out: the name of a later entry is not below that of an
      earlier one, where a slash is added to the name of a directory. */
  ghost predicate GitOrder(t: Tree) {
    forall i, j :: 0 <= i < j < |t| ==>
      !Below(t[j].name + (if t[j].mode == DIR then "/" else ""), t[i].name + (if t[i].mode == DIR then "/" else ""))
  }

  lemma OrderIs(t: Tree)
    ensures InOrder(t) <==> GitOrder(t)
  {
    hide Below;
    forall e: Entry ensures SortName(e) == e.name + (if e.mode == DIR then "/" else "") {
    }
  }

  /** A file with a dot comes before a directory of the same name: the slash is above the dot. */
  lemma DotBeforeSlash(t: Tree, i: nat, j: nat)
    requires GitOrder(t) && i < |t| && j < |t| && t[i].mode == DIR && t[j].mode != DIR && t[j].name == t[i].name + ".b"
    ensures j < i
  {
    PrefixBelow(t[i].name, ".b", "/");
    assert t[j].name + "" == t[j].name;
    assert Below(t[j].name + "", t[i].name + "/");
  }

  lemma {:induction false} PrefixBelow(x: string, a: string, b: string)
    ensures Below(x + a, x + b) <==> Below(a, b)
  {
    if x == [] {
      assert x + a == a && x + b == b;
    } else {
      PrefixBelow(x[1..], a, b);
      assert (x + a)[1..] == x[1..] + a && (x + b)[1..] == x[1..] + b;
    }
  }

  method InsertEntry(t: Tree, e: Entry) returns (r: Tree)
    requires InOrder(t) && NamesApart(t) && forall i :: 0 <= i < |t| ==> t[i].name != e.name
    ensures InOrder(r) && NamesApart(r) && |r| == |t| + 1 && forall x :: x in r <==> x in t || x == e
  {
    hide Below, SortName;
    var k := |t|;
    while k > 0 && Below(SortName(e), SortName(t[k - 1]))
      invariant 0 <= k <= |t| && forall i :: k <= i < |t| ==> Below(SortName(e), SortName(t[i]))
    {
      k := k - 1;
    }
    InsertedEntry(t, k, e);
    r := t[..k] + [e] + t[k..];
  }

  lemma InsertedEntry(t: Tree, k: nat, e: Entry)
    requires InOrder(t) && NamesApart(t) && k <= |t| && (k > 0 ==> !Below(SortName(e), SortName(t[k - 1])))
    requires forall i :: k <= i < |t| ==> Below(SortName(e), SortName(t[i]))
    requires forall i :: 0 <= i < |t| ==> t[i].name != e.name
    ensures var r := t[..k] + [e] + t[k..]; InOrder(r) && NamesApart(r) && forall x :: x in r <==> x in t || x == e
  {
    hide Below, SortName;
    var r := t[..k] + [e] + t[k..];
    assert t == t[..k] + t[k..];
    forall i, j | 0 <= i < j < |r| ensures !Below(SortName(r[j]), SortName(r[i])) && r[i].name != r[j].name {
      if j == k && i < k - 1 {
        NotBelow(SortName(e), SortName(t[i]), SortName(t[k - 1]));
      } else if i == k {
        BelowOnce(SortName(e), SortName(t[j - 1]));
      }
    }
  }

  lemma {:induction false} NotBelow(x: string, p: string, q: string)
    requires !Below(q, p) && !Below(x, q)
    ensures !Below(x, p)
  {
    if Below(x, p) {
      BelowTotal(p, q);
      if Below(p, q) {
        BelowTransitive(x, p, q);
      }
    }
  }

  lemma {:induction false} BelowOnce(x: string, y: string)
    requires Below(x, y)
    ensures !Below(y, x)
  {
    if Below(y, x) {
      BelowTransitive(x, y, x);
      BelowIrreflexive(x);
    }
  }

  /** `sort.Sort`. */
  method SortEntries(t: Tree) returns (r: Tree)
    requires NamesApart(t)
    ensures InOrder(r) && NamesApart(r) && |r| == |t| && forall x :: x in r <==> x in t
    ensures GitOrder(r)
  {
    hide InOrder;
    r := [];
    assert InOrder([]) by {
      NoneInOrder();
    }
    for n := 0 to |t|
      invariant InOrder(r) && NamesApart(r) && |r| == n && forall x :: x in r <==> x in t[..n]
    {
      forall i | 0 <= i < |r| ensures r[i].name != t[n].name {
        assert r[i] in t[..n];
      }
      r := InsertEntry(r, t[n]);
    }
    assert t[..|t|] == t;
    OrderIs(r);
  }

  lemma NoneInOrder()
    ensures InOrder([])
  {
  }

  // --- Laying out the trees -------------------------------------------------------------------

  type Trees = map<Path, Tree>

  /** `doBuildTree` for the name at `k`: a directory that is there stays, anything else gets an
      entry in its parent, and a directory gets a tree. */
  function Placed(trees: Trees, e: IndexEntry, k: nat): Trees
    requires k < |e.path|
  {
    var parent, full := e.path[..k], e.path[..k + 1];
    if full in trees || parent !in trees then trees
    else if k + 1 == |e.path| then trees[parent := trees[parent] + [Entry(e.path[k], e.leaf.mode, e.leaf.hash)]]
    else trees[full := []][parent := trees[parent] + [Entry(e.path[k], DIR, ZERO_HASH)]]
  }

  function PlacedTo(trees: Trees, e: IndexEntry, k: nat): Trees
    requires k <= |e.path|
  {
    if k == 0 then trees else Placed(PlacedTo(trees, e, k - 1), e, k - 1)
  }

  function LaidOut(es: seq<IndexEntry>, n: nat): Trees
    requires n <= |es|
  {
    if n == 0 then map[[] := []] else PlacedTo(LaidOut(es, n - 1), es[n - 1], |es[n - 1].path|)
  }

  /** No path is a directory of another one, or the same. */
  ghost predicate Clean(es: seq<IndexEntry>) {
    && (forall i :: 0 <= i < |es| ==> es[i].path != [])
    && (forall i, j :: 0 <= i < |es| && 0 <= j < |es| && i != j ==> !(es[i].path <= es[j].path))
  }

  ghost function IndexOf(es: seq<IndexEntry>, n: nat): Index
    requires n <= |es|
  {
    if n == 0 then map[] else IndexOf(es, n - 1)[es[n - 1].path := es[n - 1].leaf]
  }

  lemma {:induction false} IndexFrom(es: seq<IndexEntry>, n: nat, p: Path)
    requires n <= |es| && p in IndexOf(es, n)
    ensures exists i :: 0 <= i < n && es[i].path == p && es[i].leaf == IndexOf(es, n)[p]
  {
    if p != es[n - 1].path {
      IndexFrom(es, n - 1, p);
    }
  }

  lemma {:induction false} IndexHas(es: seq<IndexEntry>, n: nat, i: nat)
    requires Clean(es) && i < n <= |es|
    ensures es[i].path in IndexOf(es, n) && IndexOf(es, n)[es[i].path] == es[i].leaf
  {
    if i < n - 1 {
      IndexHas(es, n - 1, i);
      assert !(es[i].path <= es[n - 1].path);
    }
  }

  /** An entry of the directory `d` while the trees are being laid out. */
  ghost predicate EntryFor(m: Index, dirs: set<Path>, d: Path, e: Entry) {
    if d + [e.name] in m then e.mode == m[d + [e.name]].mode && e.hash == m[d + [e.name]].hash
    else d + [e.name] in dirs && e.mode == DIR && e.hash == ZERO_HASH
  }

  ghost predicate HasName(t: Tree, x: string) { exists i :: 0 <= i < |t| && t[i].name == x }

  /** The directory has one entry for each of its members, and no other. */
  ghost predicate Mirrors(m: Index, dirs: set<Path>, d: Path, t: Tree) {
    && NamesApart(t)
    && (forall i :: 0 <= i < |t| ==> EntryFor(m, dirs, d, t[i]))
    && (forall x: string :: d + [x] in dirs || d + [x] in m ==> HasName(t, x))
  }

  ghost predicate AllMirror(m: Index, trees: Trees) {
    forall d :: d in trees ==> Mirrors(m, trees.Keys, d, trees[d])
  }

  lemma Snoc(d: Path, x: string, d': Path, x': string)
    requires d + [x] == d' + [x']
    ensures d == d' && x == x'
  {
    assert (d + [x])[..|d|] == d && (d' + [x'])[..|d'|] == d';
    assert (d + [x])[|d|] == x && (d' + [x'])[|d'|] == x';
  }

  /** Only `q` is new. */
  ghost predicate OnlyNew(m: Index, dirs: set<Path>, m': Index, dirs': set<Path>, q: Path) {
    forall p :: p != q ==> (p in m' <==> p in m) && (p in m ==> m'[p] == m[p]) && (p in dirs' <==> p in dirs)
  }

  /** A new member changes its own directory only. */
  lemma MirrorsElsewhere(m: Index, dirs: set<Path>, d: Path, t: Tree, m': Index, dirs': set<Path>, parent: Path, x: string)
    requires Mirrors(m, dirs, d, t) && d != parent && OnlyNew(m, dirs, m', dirs', parent + [x])
    ensures Mirrors(m', dirs', d, t)
  {
    forall y: string ensures d + [y] != parent + [x] {
      if d + [y] == parent + [x] {
        Snoc(d, y, parent, x);
      }
    }
  }

  lemma MirrorsParent(m: Index, dirs: set<Path>, t: Tree, m': Index, dirs': set<Path>, parent: Path, e: Entry)
    requires Mirrors(m, dirs, parent, t) && parent + [e.name] !in m && parent + [e.name] !in dirs
    requires OnlyNew(m, dirs, m', dirs', parent + [e.name]) && EntryFor(m', dirs', parent, e)
    ensures Mirrors(m', dirs', parent, t + [e])
  {
    var t' := t + [e];
    forall i | 0 <= i < |t| ensures t[i].name != e.name && EntryFor(m', dirs', parent, t[i]) {
      assert EntryFor(m, dirs, parent, t[i]);
    }
    forall x: string | parent + [x] in dirs' || parent + [x] in m' ensures HasName(t', x) {
      if parent + [x] == parent + [e.name] {
        Snoc(parent, x, parent, e.name);
        assert t'[|t|].name == x;
      } else {
        assert HasName(t, x);
        var i :| 0 <= i < |t| && t[i].name == x;
        assert t'[i].name == x;
      }
    }
  }

  /** A new entry for a path that was not there. */
  lemma MirrorsAll(m: Index, trees: Trees, m': Index, trees': Trees, parent: Path, e: Entry)
    requires AllMirror(m, trees) && parent in trees && parent + [e.name] !in m && parent + [e.name] !in trees
    requires OnlyNew(m, trees.Keys, m', trees'.Keys, parent + [e.name]) && EntryFor(m', trees'.Keys, parent, e)
    requires forall d :: d in trees' && d != parent ==> if d in trees then trees'[d] == trees[d] else trees'[d] == []
    requires parent in trees' && trees'[parent] == trees[parent] + [e]
    requires forall x: string :: parent + [e.name] + [x] !in trees && parent + [e.name] + [x] !in m
    ensures AllMirror(m', trees')
  {
    hide Mirrors, EntryFor;
    var full := parent + [e.name];
    forall d | d in trees' ensures Mirrors(m', trees'.Keys, d, trees'[d]) {
      if d == parent {
        MirrorsParent(m, trees.Keys, trees[parent], m', trees'.Keys, parent, e);
      } else if d in trees {
        MirrorsElsewhere(m, trees.Keys, d, trees[d], m', trees'.Keys, parent, e.name);
      } else {
        MirrorsNew(m', trees'.Keys, full) by {
          forall x: string ensures full + [x] !in trees'.Keys && full + [x] !in m' {
            assert full + [x] != full;
            assert full + [x] !in trees && full + [x] !in m;
          }
        }
      }
    }
  }

  /** A new directory is still empty. */
  lemma MirrorsNew(m: Index, dirs: set<Path>, full: Path)
    requires forall x: string :: full + [x] !in dirs && full + [x] !in m
    ensures Mirrors(m, dirs, full, [])
  {
  }

  /** The directories: exactly those above the first `n` paths, and the first `k` above the
      next one. */
  ghost predicate IsDir(es: seq<IndexEntry>, n: nat, k: nat, d: Path)
    requires n <= |es|
  {
    d == [] || (exists i :: 0 <= i < n && d < es[i].path) || (n < |es| && d < es[n].path && |d| <= k)
  }

  ghost predicate Laying(es: seq<IndexEntry>, n: nat, k: nat, trees: Trees)
    requires n <= |es|
  {
    (forall d :: d in trees <==> IsDir(es, n, k, d)) && AllMirror(IndexOf(es, n), trees)
  }

  lemma PrefixOf(p: Path, q: Path)
    requires p <= q
    ensures q[..|p|] == p
  {
  }

  /** One more directory. */
  lemma LayDirectory(es: seq<IndexEntry>, n: nat, k: nat, trees: Trees)
    requires Clean(es) && n < |es| && k + 1 < |es[n].path| && Laying(es, n, k, trees)
    ensures Laying(es, n, k + 1, Placed(trees, es[n], k))
  {
    hide AllMirror, IndexOf;
    var e := es[n];
    var parent, full := e.path[..k], e.path[..k + 1];
    var trees' := Placed(trees, e, k);
    assert IsDir(es, n, k, parent);
    assert full == parent + [e.path[k]];
    forall d ensures IsDir(es, n, k + 1, d) <==> IsDir(es, n, k, d) || d == full {
      if d < e.path && |d| == k + 1 {
        PrefixOf(d, e.path);
      }
    }
    if full !in trees {
      var m := IndexOf(es, n);
      if full in m {
        IndexFrom(es, n, full);
      }
      forall x: string ensures full + [x] !in trees && full + [x] !in m {
        BelowNew(es, n, k, full, x);
      }
      MirrorsAll(m, trees, m, trees', parent, Entry(e.path[k], DIR, ZERO_HASH));
    }
  }

  /** Nothing is below a path that is no directory. */
  lemma {:induction false} BelowNew(es: seq<IndexEntry>, n: nat, k: nat, full: Path, x: string)
    requires n < |es| && !IsDir(es, n, k, full) && |full| > k
    ensures !IsDir(es, n, k, full + [x]) && full + [x] !in IndexOf(es, n)
  {
    assert full < full + [x];
    if full + [x] in IndexOf(es, n) {
      IndexFrom(es, n, full + [x]);
    }
  }

  lemma FileIsNew(es: seq<IndexEntry>, n: nat)
    requires Clean(es) && n < |es|
    ensures var p := es[n].path;
            && p != [] && IsDir(es, n, |p| - 1, p[..|p| - 1])
            && !IsDir(es, n, |p| - 1, p) && p !in IndexOf(es, n) && IndexOf(es, n + 1) == IndexOf(es, n)[p := es[n].leaf]
  {
    var p := es[n].path;
    if p in IndexOf(es, n) {
      IndexFrom(es, n, p);
    }
  }

  /** The file itself. */
  lemma LayFile(es: seq<IndexEntry>, n: nat, trees: Trees)
    requires Clean(es) && n < |es| && es[n].path != [] && Laying(es, n, |es[n].path| - 1, trees)
    ensures Laying(es, n + 1, 0, Placed(trees, es[n], |es[n].path| - 1))
  {
    hide AllMirror, IsDir, Clean, IndexOf;
    var e := es[n];
    var k := |e.path| - 1;
    var parent := e.path[..k];
    var te := Entry(e.path[k], e.leaf.mode, e.leaf.hash);
    FileIsNew(es, n);
    assert e.path == parent + [te.name] == e.path[..k + 1];
    var trees' := trees[parent := trees[parent] + [te]];
    forall d ensures IsDir(es, n + 1, 0, d) <==> IsDir(es, n, k, d) {
      SameDirs(es, n, d);
    }
    forall x: string ensures e.path + [x] !in trees && e.path + [x] !in IndexOf(es, n) {
      BelowNew(es, n, k, e.path, x);
    }
    MirrorsFile(IndexOf(es, n), trees, e.leaf, parent, te);
    assert trees' == Placed(trees, e, k);
  }

  lemma MirrorsFile(m: Index, trees: Trees, leaf: Leaf, parent: Path, e: Entry)
    requires AllMirror(m, trees) && parent in trees && parent + [e.name] !in m && parent + [e.name] !in trees
    requires e.mode == leaf.mode && e.hash == leaf.hash
    requires forall x: string :: parent + [e.name] + [x] !in trees && parent + [e.name] + [x] !in m
    ensures AllMirror(m[parent + [e.name] := leaf], trees[parent := trees[parent] + [e]])
  {
    hide AllMirror;
    var trees' := trees[parent := trees[parent] + [e]];
    assert trees'.Keys == trees.Keys;
    MirrorsAll(m, trees, m[parent + [e.name] := leaf], trees', parent, e);
  }

  lemma SameDirs(es: seq<IndexEntry>, n: nat, d: Path)
    requires n < |es| && es[n].path != []
    ensures IsDir(es, n + 1, 0, d) <==> IsDir(es, n, |es[n].path| - 1, d)
  {
    if d < es[n].path {
      assert |d| <= |es[n].path| - 1;
    }
  }

  lemma {:induction false} LayPath(es: seq<IndexEntry>, n: nat, k: nat, trees: Trees)
    requires Clean(es) && n < |es| && k < |es[n].path| && Laying(es, n, 0, trees)
    ensures Laying(es, n, k, PlacedTo(trees, es[n], k))
  {
    hide Laying, Placed;
    if k > 0 {
      LayPath(es, n, k - 1, trees);
      LayDirectory(es, n, k - 1, PlacedTo(trees, es[n], k - 1));
    }
  }

  lemma {:induction false} LayEntry(es: seq<IndexEntry>, n: nat, trees: Trees)
    requires Clean(es) && n < |es| && Laying(es, n, 0, trees)
    ensures Laying(es, n + 1, 0, PlacedTo(trees, es[n], |es[n].path|))
  {
    hide Laying, Placed, Clean, IsDir, IndexOf;
    FileIsNew(es, n);
    var k := |es[n].path| - 1;
    LayPath(es, n, k, trees);
    LayFile(es, n, PlacedTo(trees, es[n], k));
  }

  /** Trees of a clean index have one entry for each of their members. */
  lemma {:induction false} LaysOut(es: seq<IndexEntry>, n: nat)
    requires Clean(es) && n <= |es|
    ensures Laying(es, n, 0, LaidOut(es, n))
  {
    hide Laying, Placed, PlacedTo, Clean;
    if n > 0 {
      LaysOut(es, n - 1);
      LayEntry(es, n - 1, LaidOut(es, n - 1));
    } else {
      NothingLaid(es);
    }
  }

  lemma {:induction false} NothingLaid(es: seq<IndexEntry>)
    ensures Laying(es, 0, 0, LaidOut(es, 0))
  {
    forall d ensures d in LaidOut(es, 0) <==> IsDir(es, 0, 0, d) {
      if |es| > 0 && d < es[0].path && |d| == 0 {
        assert d == [];
      }
    }
    forall x: string ensures [] + [x] !in {[]} && [] + [x] !in IndexOf(es, 0) {
    }
  }

  // --- Exactly when the layout is right -------------------------------------------------------

  ghost predicate HasEntry(trees: Trees, e: IndexEntry) {
    && e.path != [] && e.path[..|e.path| - 1] in trees
    && Entry(e.path[|e.path| - 1], e.leaf.mode, e.leaf.hash) in trees[e.path[..|e.path| - 1]]
  }

  /** No tree has a name twice, and every entry of the index is in its tree. */
  ghost predicate Right(es: seq<IndexEntry>, trees: Trees) {
    && (forall d :: d in trees ==> NamesApart(trees[d]))
    && (forall i :: 0 <= i < |es| ==> HasEntry(trees, es[i]))
  }

  /** Every directory has its entry in the one above it. */
  ghost predicate Linked(trees: Trees) {
    [] in trees && forall d, x :: d + [x] in trees ==> d in trees && Entry(x, DIR, ZERO_HASH) in trees[d]
  }

  ghost predicate Extends(trees: Trees, trees': Trees) {
    forall d :: d in trees ==> d in trees' && trees[d] <= trees'[d]
  }

  lemma PlacedKeeps(trees: Trees, e: IndexEntry, k: nat)
    requires k < |e.path| && Linked(trees) && e.path[..k] in trees
    ensures var trees' := Placed(trees, e, k);
            && Linked(trees') && Extends(trees, trees')
            && (k + 1 < |e.path| ==> e.path[..k + 1] in trees')
            && (k + 1 == |e.path| && e.path !in trees' ==>
                  trees'[e.path[..k]] == trees[e.path[..k]] + [Entry(e.path[k], e.leaf.mode, e.leaf.hash)])
  {
    var parent, full, trees' := e.path[..k], e.path[..k + 1], Placed(trees, e, k);
    assert full == parent + [e.path[k]];
    assert k + 1 == |e.path| ==> full == e.path;
    forall d, x | d + [x] in trees' ensures d in trees' && Entry(x, DIR, ZERO_HASH) in trees'[d] {
      if d + [x] !in trees {
        Snoc(d, x, parent, e.path[k]);
      }
    }
  }

  lemma {:induction false} PlacedToKeeps(trees: Trees, e: IndexEntry, k: nat)
    requires k <= |e.path| && Linked(trees)
    ensures Linked(PlacedTo(trees, e, k)) && Extends(trees, PlacedTo(trees, e, k))
    ensures forall j :: 0 <= j <= k && j < |e.path| ==> e.path[..j] in PlacedTo(trees, e, k)
  {
    hide Placed;
    if k > 0 {
      PlacedToKeeps(trees, e, k - 1);
      PlacedKeeps(PlacedTo(trees, e, k - 1), e, k - 1);
    }
  }

  ghost function NameCount(t: Tree, x: string): nat {
    if t == [] then 0 else NameCount(t[..|t| - 1], x) + if t[|t| - 1].name == x then 1 else 0
  }

  ghost function PathCount(es: seq<IndexEntry>, n: nat, p: Path): nat
    requires n <= |es|
  {
    if n == 0 then 0 else PathCount(es, n - 1, p) + if es[n - 1].path == p then 1 else 0
  }

  lemma {:induction false} NameCountGrows(s: Tree, t: Tree, x: string)
    requires s <= t
    ensures NameCount(s, x) <= NameCount(t, x)
  {
    if |s| == |t| {
      assert s == t;
    } else {
      NameCountGrows(s, t[..|t| - 1], x);
    }
  }

  lemma {:induction false} NameTwice(t: Tree, x: string)
    requires NamesApart(t)
    ensures NameCount(t, x) <= 1 && (NameCount(t, x) == 0 <==> !HasName(t, x))
  {
    if t != [] {
      var n := |t| - 1;
      NameTwice(t[..n], x);
      if HasName(t[..n], x) {
        var i :| 0 <= i < n && t[..n][i].name == x;
        assert t[i].name == x;
      }
      if t[n].name == x {
        assert HasName(t, x);
      }
    }
  }

  /** A path that is no directory has an entry for each time it was in the index. */
  ghost predicate Counted(es: seq<IndexEntry>, n: nat, trees: Trees)
    requires n <= |es|
  {
    forall p: Path :: p != [] && p !in trees && PathCount(es, n, p) > 0 ==>
      p[..|p| - 1] in trees && NameCount(trees[p[..|p| - 1]], p[|p| - 1]) >= PathCount(es, n, p)
  }

  ghost predicate Prefixes(es: seq<IndexEntry>, n: nat, trees: Trees)
    requires n <= |es|
  {
    forall i, k :: 0 <= i < n && 0 <= k < |es[i].path| ==> es[i].path[..k] in trees
  }

  lemma {:induction false} LaidOutKeeps(es: seq<IndexEntry>, n: nat)
    requires n <= |es|
    ensures var trees := LaidOut(es, n); Linked(trees) && Prefixes(es, n, trees) && Counted(es, n, trees)
  {
    if n > 0 {
      hide Placed, PlacedTo, Linked, Prefixes, Counted, Extends, PathCount, NameCount;
      LaidOutKeeps(es, n - 1);
      var trees, e := LaidOut(es, n - 1), es[n - 1];
      PlacedToKeeps(trees, e, |e.path|);
      PrefixesMore(es, n, trees, LaidOut(es, n));
      CountedMore(es, n, trees, LaidOut(es, n));
    }
  }

  lemma PrefixesMore(es: seq<IndexEntry>, n: nat, trees: Trees, trees': Trees)
    requires 0 < n <= |es| && Prefixes(es, n - 1, trees) && Extends(trees, trees')
    requires var e := es[n - 1]; forall j :: 0 <= j <= |e.path| && j < |e.path| ==> e.path[..j] in trees'
    ensures Prefixes(es, n, trees')
  {
  }

  lemma {:induction false} CountedMore(es: seq<IndexEntry>, n: nat, trees: Trees, trees': Trees)
    requires 0 < n <= |es| && Linked(trees) && Counted(es, n - 1, trees) && trees' == PlacedTo(trees, es[n - 1], |es[n - 1].path|)
    ensures Counted(es, n, trees')
  {
    hide PlacedTo, PathCount, NameCount, Linked;
    forall p: Path | p != [] && p !in trees' && PathCount(es, n, p) > 0
      ensures p[..|p| - 1] in trees' && NameCount(trees'[p[..|p| - 1]], p[|p| - 1]) >= PathCount(es, n, p)
    {
      CountedOne(es, n, trees, trees', p);
    }
  }

  lemma {:induction false} CountedOne(es: seq<IndexEntry>, n: nat, trees: Trees, trees': Trees, p: Path)
    requires 0 < n <= |es| && Linked(trees) && Counted(es, n - 1, trees) && trees' == PlacedTo(trees, es[n - 1], |es[n - 1].path|)
    requires p != [] && p !in trees' && PathCount(es, n, p) > 0
    ensures p[..|p| - 1] in trees' && NameCount(trees'[p[..|p| - 1]], p[|p| - 1]) >= PathCount(es, n, p)
  {
    hide Placed, PlacedTo, Linked, NameCount;
    var e, d, x := es[n - 1], p[..|p| - 1], p[|p| - 1];
    PlacedToKeeps(trees, e, |e.path|);
    if e.path == p {
      var before := PlacedTo(trees, e, |p| - 1);
      PlacedToKeeps(trees, e, |p| - 1);
      PlacedToLast(trees, e, |p|);
      PlacedKeeps(before, e, |p| - 1);
      NameCountPush(before[d], Entry(x, e.leaf.mode, e.leaf.hash), x);
      if PathCount(es, n - 1, p) > 0 {
        NameCountGrows(trees[d], before[d], x);
      }
    } else {
      NameCountGrows(trees[d], trees'[d], x);
    }
  }

  lemma PlacedToLast(trees: Trees, e: IndexEntry, k: nat)
    requires 0 < k <= |e.path|
    ensures PlacedTo(trees, e, k) == Placed(PlacedTo(trees, e, k - 1), e, k - 1)
  {
    hide Placed;
  }

  lemma {:induction false} NameCountPush(t: Tree, e: Entry, x: string)
    ensures NameCount(t + [e], x) == NameCount(t, x) + if e.name == x then 1 else 0
  {
    assert (t + [e])[..|t|] == t;
  }

  lemma {:induction false} PathCountHas(es: seq<IndexEntry>, n: nat, i: nat)
    requires i < n <= |es|
    ensures PathCount(es, n, es[i].path) >= 1
  {
    if i < n - 1 {
      PathCountHas(es, n - 1, i);
    }
  }

  lemma {:induction false} PathCountTwice(es: seq<IndexEntry>, n: nat, i: nat, j: nat)
    requires i < j < n <= |es| && es[i].path == es[j].path
    ensures PathCount(es, n, es[i].path) >= 2
  {
    if j < n - 1 {
      PathCountTwice(es, n - 1, i, j);
    } else {
      PathCountHas(es, n - 1, i);
    }
  }

  /** An entry of the index whose path is a directory, or comes twice, spoils the layout. */
  lemma {:induction false} NotRight(es: seq<IndexEntry>, i: nat, j: nat)
    requires i < |es| && j < |es| && i != j && es[i].path <= es[j].path && es[i].leaf.mode != DIR
    ensures !Right(es, LaidOut(es, |es|))
  {
    hide LaidOut, PathCount, NameCount, NamesApart, Linked, Prefixes, Counted;
    var trees, p := LaidOut(es, |es|), es[i].path;
    LaidOutKeeps(es, |es|);
    if HasEntry(trees, es[i]) {
      if p in trees {
        NotRightDirectory(trees, es[i]);
      } else {
        if p != es[j].path {
          PrefixIn(es, trees, j, p);
        }
        PathCountTwice(es, |es|, if i < j then i else j, if i < j then j else i);
        NotRightTwice(es, trees, p);
      }
    }
  }

  lemma PrefixIn(es: seq<IndexEntry>, trees: Trees, j: nat, p: Path)
    requires Prefixes(es, |es|, trees) && j < |es| && p < es[j].path
    ensures p in trees
  {
    PrefixOf(p, es[j].path);
  }

  lemma NotRightDirectory(trees: Trees, e: IndexEntry)
    requires Linked(trees) && HasEntry(trees, e) && e.path in trees && e.leaf.mode != DIR
    ensures !NamesApart(trees[e.path[..|e.path| - 1]])
  {
    hide NamesApart;
    var d, x := e.path[..|e.path| - 1], e.path[|e.path| - 1];
    assert e.path == d + [x];
    TwoEntries(trees[d], Entry(x, e.leaf.mode, e.leaf.hash), Entry(x, DIR, ZERO_HASH));
  }

  lemma {:induction false} NotRightTwice(es: seq<IndexEntry>, trees: Trees, p: Path)
    requires Counted(es, |es|, trees) && p != [] && p !in trees && PathCount(es, |es|, p) >= 2
    ensures p[..|p| - 1] in trees && !NamesApart(trees[p[..|p| - 1]])
  {
    hide PathCount, NameCount;
    if NamesApart(trees[p[..|p| - 1]]) {
      NameTwice(trees[p[..|p| - 1]], p[|p| - 1]);
    }
  }

  lemma TwoEntries(t: Tree, a: Entry, b: Entry)
    requires a in t && b in t && a != b && a.name == b.name
    ensures !NamesApart(t)
  {
    var i :| 0 <= i < |t| && t[i] == a;
    var j :| 0 <= j < |t| && t[j] == b;
    assert i < j || j < i;
  }

  /** The layout is right exactly for clean indices. */
  lemma {:induction false} RightExactly(es: seq<IndexEntry>)
    requires forall i :: 0 <= i < |es| ==> es[i].leaf.mode != DIR
    ensures Right(es, LaidOut(es, |es|)) <==> Clean(es)
  {
    hide Placed;
    var trees := LaidOut(es, |es|);
    if Clean(es) {
      LaysOut(es, |es|);
      forall d | d in trees ensures NamesApart(trees[d]) {
        assert Mirrors(IndexOf(es, |es|), trees.Keys, d, trees[d]);
      }
      forall i | 0 <= i < |es| ensures HasEntry(trees, es[i]) {
        CleanHasEntry(es, i);
      }
    } else if i, j :| 0 <= i < |es| && 0 <= j < |es| && i != j && es[i].path <= es[j].path {
      NotRight(es, i, j);
    }
  }

  lemma {:induction false} CleanHasEntry(es: seq<IndexEntry>, i: nat)
    requires Clean(es) && i < |es| && Laying(es, |es|, 0, LaidOut(es, |es|))
    ensures HasEntry(LaidOut(es, |es|), es[i])
  {
    hide LaidOut, IndexOf, NamesApart;
    var trees, m, p := LaidOut(es, |es|), IndexOf(es, |es|), es[i].path;
    var d, x := p[..|p| - 1], p[|p| - 1];
    assert p == d + [x];
    assert d in trees by {
      assert d < p;
      assert IsDir(es, |es|, 0, d);
    }
    IndexHas(es, |es|, i);
    hide IsDir, Clean;
    var t := trees[d];
    assert Mirrors(m, trees.Keys, d, t);
    assert HasName(t, x);
    var k :| 0 <= k < |t| && t[k].name == x;
    assert EntryFor(m, trees.Keys, d, t[k]);
    assert t[k] == Entry(x, es[i].leaf.mode, es[i].leaf.hash);
  }
}
