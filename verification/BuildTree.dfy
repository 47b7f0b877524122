/** Writing the trees of an index to the object store. */
module BuildTree {
  import opened Ordering
  import opened Graph
  import opened ObjectGraph
  import opened TreeLayout
  import opened Wrappers

  /** Tree objects by their hashes. */
  type TreeStore = map<Hash, Tree>

  datatype Result<T> = Ok(value: T) | NotSorted | MalformedName

  predicate BadName(x: string) { '\0' in x }

  ghost predicate AnyBadName(t: Tree) { exists i :: 0 <= i < |t| && BadName(t[i].name) }

  /** The check that `Encode` makes before it writes: neighbours are in order, names are free of
      zero bytes. */
  method EncodeTree(t: Tree) returns (r: Result<Tree>)
    ensures r.NotSorted? <==> !GitOrder(t)
    ensures r.Ok? <==> GitOrder(t) && !AnyBadName(t)
    ensures r.MalformedName? <==> GitOrder(t) && exists i :: 0 <= i < |t| && '\0' in t[i].name
    ensures r.Ok? ==> r.value == t
  {
    hide Below, SortName, GitOrder;
    OrderIs(t);
    var i := 1;
    while i < |t|
      invariant 1 <= i && (t == [] || (i <= |t| && InOrder(t[..i])))
    {
      if Below(SortName(t[i]), SortName(t[i - 1])) {
        return NotSorted;
      }
      OrderGrows(t, i);
      i := i + 1;
    }
    assert t == [] || t[..|t|] == t;
    for k := 0 to |t|
      invariant forall j :: 0 <= j < k ==> !BadName(t[j].name)
    {
      if BadName(t[k].name) {
        return MalformedName;
      }
    }
    return Ok(t);
  }

  /** In order as far as neighbours go is in order. */
  lemma OrderGrows(t: Tree, i: nat)
    requires 0 < i < |t| && InOrder(t[..i]) && !Below(SortName(t[i]), SortName(t[i - 1]))
    ensures InOrder(t[..i + 1])
  {
    hide Below, SortName;
    var s := t[..i + 1];
    forall a, b | 0 <= a < b < |s| ensures !Below(SortName(s[b]), SortName(s[a])) {
      assert forall c :: 0 <= c < i ==> t[..i][c] == t[c];
      if b == i && a < i - 1 {
        NotBelow(SortName(t[i]), SortName(t[a]), SortName(t[i - 1]));
      }
    }
  }

  // --- What is stored -------------------------------------------------------------------------

  /** The entry is that of the index, or a directory whose tree is stored. */
  ghost predicate EntryStored(store: TreeStore, m: Index, dirs: set<Path>, d: Path, e: Entry, n: nat)
    decreases n, 0
  {
    if d + [e.name] in m then e.mode == m[d + [e.name]].mode && e.hash == m[d + [e.name]].hash
    else d + [e.name] in dirs && e.mode == DIR && n > 0 && Stored(store, e.hash, m, dirs, d + [e.name], n - 1)
  }

  /** Under `h`, the directory `d` is stored with everything below it, at most `n` levels. */
  ghost predicate Stored(store: TreeStore, h: Hash, m: Index, dirs: set<Path>, d: Path, n: nat)
    decreases n, 2
  {
    h in store && TreeStored(store, store[h], m, dirs, d, n)
  }

  ghost predicate TreeStored(store: TreeStore, t: Tree, m: Index, dirs: set<Path>, d: Path, n: nat)
    decreases n, 1
  {
    && InOrder(t) && NamesApart(t) && !AnyBadName(t)
    && (forall i :: 0 <= i < |t| ==> EntryStored(store, m, dirs, d, t[i], n))
    && (forall x: string :: d + [x] in dirs || d + [x] in m ==> HasName(t, x))
  }

  ghost predicate Grown(store: TreeStore, store': TreeStore) {
    forall h :: h in store ==> h in store' && store'[h] == store[h]
  }

  lemma {:induction false} StillStored(store: TreeStore, store': TreeStore, h: Hash, m: Index, dirs: set<Path>,
                                       d: Path, n: nat)
    requires Stored(store, h, m, dirs, d, n) && Grown(store, store')
    ensures Stored(store', h, m, dirs, d, n)
    decreases n, 1
  {
    var t := store[h];
    forall i | 0 <= i < |t| ensures EntryStored(store', m, dirs, d, t[i], n) {
      EntryStill(store, store', m, dirs, d, t[i], n);
    }
  }

  lemma {:induction false} EntryStill(store: TreeStore, store': TreeStore, m: Index, dirs: set<Path>, d: Path,
                                      e: Entry, n: nat)
    requires EntryStored(store, m, dirs, d, e, n) && Grown(store, store')
    ensures EntryStored(store', m, dirs, d, e, n)
    decreases n, 0
  {
    if d + [e.name] !in m {
      StillStored(store, store', e.hash, m, dirs, d + [e.name], n - 1);
    }
  }

  // --- Looking a path up ----------------------------------------------------------------------

  function Find(t: Tree, x: string): Option<Entry> {
    if t == [] then None else if t[|t| - 1].name == x then Some(t[|t| - 1]) else Find(t[..|t| - 1], x)
  }

  lemma {:induction false} FindIs(t: Tree, x: string)
    ensures HasName(t, x) <==> Find(t, x).Some?
    ensures Find(t, x).Some? ==> Find(t, x).value in t && Find(t, x).value.name == x
  {
    if t != [] {
      var n := |t| - 1;
      FindIs(t[..n], x);
      if HasName(t[..n], x) {
        var i :| 0 <= i < n && t[..n][i].name == x;
        assert t[i].name == x;
      }
      if t[n].name == x {
        assert HasName(t, x);
      }
    }
  }

  /** The file under a path, going down from the tree `h`. */
  function Lookup(store: TreeStore, h: Hash, p: Path): Option<Leaf>
    decreases p
  {
    if p == [] || h !in store then None
    else
      match Find(store[h], p[0])
      case None => None
      case Some(e) =>
        if |p| == 1 then (if e.mode == DIR then None else Some(Leaf(e.mode, e.hash)))
        else if e.mode == DIR then Lookup(store, e.hash, p[1..])
        else None
  }

  function At(m: Index, p: Path): Option<Leaf> { if p in m then Some(m[p]) else None }

  /** Paths of files are no directories, and what is above them is. */
  ghost predicate Layered(m: Index, dirs: set<Path>) {
    && (forall p :: p in m ==> p !in dirs && m[p].mode != DIR && m[p].hash != ZERO_HASH)
    && (forall p, k :: p in m && 0 <= k < |p| ==> p[..k] in dirs)
    && (forall p, k :: p in dirs && 0 <= k < |p| ==> p[..k] in dirs)
  }

  lemma Above(m: Index, dirs: set<Path>, d: Path, p: Path)
    requires Layered(m, dirs) && |p| > 1 && (d + p in m || d + p in dirs)
    ensures d + [p[0]] in dirs
  {
    assert (d + p)[..|d| + 1] == d + [p[0]];
  }

  /** Going down a stored directory finds exactly the files of the index. */
  /** The tree under a path. */
  function TreeAt(store: TreeStore, h: Hash, p: Path): Option<Tree>
    decreases p
  {
    if h !in store then None
    else if p == [] then Some(store[h])
    else
      match Find(store[h], p[0])
      case None => None
      case Some(e) => if e.mode == DIR then TreeAt(store, e.hash, p[1..]) else None
  }

  /** All trees of a stored directory are in the order of Git. */
  lemma {:induction false} TreesInOrder(store: TreeStore, h: Hash, m: Index, dirs: set<Path>, d: Path, n: nat, p: Path)
    requires Stored(store, h, m, dirs, d, n) && Layered(m, dirs) && TreeAt(store, h, p).Some?
    ensures GitOrder(TreeAt(store, h, p).value)
    decreases p
  {
    hide Layered, GitOrder;
    OrderIs(store[h]);
    if p != [] {
      var x := p[0];
      FindIs(store[h], x);
      var e := Find(store[h], x).value;
      assert EntryStored(store, m, dirs, d, e, n);
      assert d + [x] !in m by {
        if d + [x] in m {
          NoDirectory(m, dirs, d + [x]);
        }
      }
      TreesInOrder(store, e.hash, m, dirs, d + [x], n - 1, p[1..]);
    }
  }

  lemma {:induction false} LookupIs(store: TreeStore, h: Hash, m: Index, dirs: set<Path>, d: Path, n: nat, p: Path)
    requires Stored(store, h, m, dirs, d, n) && Layered(m, dirs) && p != []
    ensures Lookup(store, h, p) == At(m, d + p)
    decreases p
  {
    hide Layered;
    var t, x := store[h], p[0];
    FindIs(t, x);
    if |p| == 1 {
      assert p == [x];
      SingleName(store, t, m, dirs, d, n, x);
    } else {
      assert d + p == (d + [x]) + p[1..];
      if d + p in m {
        Above(m, dirs, d, p);
      }
      if Find(t, x).Some? {
        var e := Find(t, x).value;
        assert EntryStored(store, m, dirs, d, e, n);
        assert d + [x] in m ==> e.mode != DIR && d + [x] !in dirs by {
          if d + [x] in m {
            NoDirectory(m, dirs, d + [x]);
          }
        }
        if d + [x] !in m {
          LookupIs(store, e.hash, m, dirs, d + [x], n - 1, p[1..]);
        }
      }
    }
  }

  lemma NoDirectory(m: Index, dirs: set<Path>, p: Path)
    requires Layered(m, dirs) && p in m
    ensures m[p].mode != DIR && p !in dirs
  {
  }

  lemma {:induction false} SingleName(store: TreeStore, t: Tree, m: Index, dirs: set<Path>, d: Path, n: nat, x: string)
    requires TreeStored(store, t, m, dirs, d, n) && Layered(m, dirs)
    ensures Find(t, x).Some? && Find(t, x).value.mode != DIR <==> d + [x] in m
    ensures d + [x] in m ==> Leaf(Find(t, x).value.mode, Find(t, x).value.hash) == m[d + [x]]
  {
    hide Layered;
    FindIs(t, x);
    if d + [x] in m {
      NoDirectory(m, dirs, d + [x]);
    }
    if Find(t, x).Some? {
      assert EntryStored(store, m, dirs, d, Find(t, x).value, n);
    }
  }

  // --- Writing --------------------------------------------------------------------------------

  /** Some name below the directory has a zero byte. */
  ghost predicate BadBelow(m: Index, dirs: set<Path>, d: Path) {
    exists q :: (q in m || q in dirs) && d < q && BadName(q[|q| - 1])
  }

  /** No name in the directory itself and none below its directories is bad. */
  lemma NoneBadBelow(m: Index, dirs: set<Path>, d: Path, t: Tree)
    requires Layered(m, dirs) && !AnyBadName(t)
    requires forall x: string :: d + [x] in dirs || d + [x] in m ==> HasName(t, x)
    requires forall x: string :: d + [x] in dirs ==> !BadBelow(m, dirs, d + [x])
    ensures !BadBelow(m, dirs, d)
  {
    hide BadBelow, BadName;
    forall q | (q in m || q in dirs) && d < q ensures !BadName(q[|q| - 1]) {
      var p := q[|d|..];
      assert q == d + p;
      if |p| == 1 {
        assert p == [p[0]];
        assert HasName(t, p[0]);
      } else {
        Above(m, dirs, d, p);
        assert d + [p[0]] < q;
        NotBad(m, dirs, d + [p[0]], q);
      }
    }
    NeverBad(m, dirs, d);
  }

  lemma NotBad(m: Index, dirs: set<Path>, d: Path, q: Path)
    requires !BadBelow(m, dirs, d) && (q in m || q in dirs) && d < q
    ensures !BadName(q[|q| - 1])
  {
  }

  lemma NeverBad(m: Index, dirs: set<Path>, d: Path)
    requires forall q :: (q in m || q in dirs) && d < q ==> !BadName(q[|q| - 1])
    ensures !BadBelow(m, dirs, d)
  {
  }

  lemma BadHere(m: Index, dirs: set<Path>, d: Path, x: string)
    requires (d + [x] in m || d + [x] in dirs) && (BadName(x) || BadBelow(m, dirs, d + [x]))
    ensures BadBelow(m, dirs, d)
  {
    if BadName(x) {
      assert d < d + [x];
    } else {
      var q :| (q in m || q in dirs) && d + [x] < q && BadName(q[|q| - 1]);
      assert d < q;
    }
  }

  /** Everything from the directory `d` down is laid out and not yet written. */
  ghost predicate Ready(m: Index, trees: Trees, d: Path) {
    forall q :: q in trees && d <= q ==> Mirrors(m, trees.Keys, q, trees[q])
  }

  ghost predicate Shallow(dirs: set<Path>, d: Path, n: nat) {
    forall q :: q in dirs && d <= q ==> |q| <= |d| + n
  }

  /** Only what is below `d` has changed. */
  ghost predicate ChangedBelow(trees: Trees, trees': Trees, d: Path) {
    trees'.Keys == trees.Keys && forall q :: q in trees && !(d <= q) ==> trees'[q] == trees[q]
  }

  /** The first `i` entries of the directory have been written. */
  ghost predicate Copying(store: TreeStore, m: Index, trees: Trees, d: Path, t: Tree, i: nat, n: nat) {
    && i <= |t| && d in trees && InOrder(t) && NamesApart(t)
    && (forall x: string :: d + [x] in trees.Keys || d + [x] in m ==> HasName(t, x))
    && (forall j :: 0 <= j < i ==> EntryStored(store, m, trees.Keys, d, t[j], n))
    && (forall j :: 0 <= j < i && d + [t[j].name] in trees ==> !BadBelow(m, trees.Keys, d + [t[j].name]))
    && (forall j :: i <= j < |t| ==> EntryFor(m, trees.Keys, d, t[j]) && Ready(m, trees, d + [t[j].name]))
  }

  lemma CopyStart(store: TreeStore, m: Index, trees: Trees, d: Path, t: Tree, n: nat)
    requires d in trees && Ready(m, trees, d) && InOrder(t) && NamesApart(t)
    requires forall x :: x in t <==> x in trees[d]
    ensures Copying(store, m, trees[d := t], d, t, 0, n)
  {
    hide InOrder, EntryFor;
    var trees' := trees[d := t];
    assert trees'.Keys == trees.Keys;
    assert Mirrors(m, trees.Keys, d, trees[d]);
    forall j | 0 <= j < |t| ensures EntryFor(m, trees.Keys, d, t[j]) && Ready(m, trees', d + [t[j].name]) {
      assert t[j] in trees[d];
      forall q | q in trees' && d + [t[j].name] <= q ensures Mirrors(m, trees'.Keys, q, trees'[q]) {
        assert d <= q && |q| > |d|;
      }
    }
    forall x: string | d + [x] in trees.Keys || d + [x] in m ensures HasName(t, x) {
      assert HasName(trees[d], x);
      var i :| 0 <= i < |trees[d]| && trees[d][i].name == x;
      assert trees[d][i] in t;
    }
  }

  /** A file needs nothing. */
  lemma CopyFile(store: TreeStore, m: Index, trees: Trees, d: Path, t: Tree, i: nat, n: nat)
    requires Copying(store, m, trees, d, t, i, n) && i < |t| && Layered(m, trees.Keys) && t[i].mode != DIR
    ensures Copying(store, m, trees, d, t, i + 1, n)
  {
    hide InOrder, Ready, BadBelow;
    assert EntryFor(m, trees.Keys, d, t[i]);
  }

  /** The tree of a directory has been written under `h`. */
  lemma {:induction false} CopyDirectory(store: TreeStore, m: Index, trees: Trees, d: Path, t: Tree, i: nat, n: nat,
                                         store': TreeStore, trees': Trees, h: Hash)
    requires Copying(store, m, trees, d, t, i, n) && i < |t| && Layered(m, trees.Keys) && t[i].mode == DIR && n > 0
    requires Grown(store, store') && ChangedBelow(trees, trees', d + [t[i].name])
    requires Stored(store', h, m, trees.Keys, d + [t[i].name], n - 1) && !BadBelow(m, trees.Keys, d + [t[i].name])
    ensures Copying(store', m, trees'[d := t[i := t[i].(hash := h)]], d, t[i := t[i].(hash := h)], i + 1, n)
  {
    hide InOrder, BadBelow, Layered, Stored, Mirrors;
    var t', trees2 := t[i := t[i].(hash := h)], trees'[d := t[i := t[i].(hash := h)]];
    assert trees2.Keys == trees.Keys;
    SameOrder(t, t');
    forall j | 0 <= j < i + 1 ensures EntryStored(store', m, trees.Keys, d, t'[j], n) {
      if j < i {
        EntryStill(store, store', m, trees.Keys, d, t[j], n);
      } else {
        assert EntryFor(m, trees.Keys, d, t[i]);
        if d + [t[i].name] in m {
          NoDirectory(m, trees.Keys, d + [t[i].name]);
        }
      }
    }
    forall j | i + 1 <= j < |t'| ensures EntryFor(m, trees.Keys, d, t'[j]) && Ready(m, trees2, d + [t'[j].name]) {
      assert Ready(m, trees, d + [t[j].name]);
      StillReady(m, trees, trees', d, t[i].name, t[j].name, t');
    }
  }

  lemma StillReady(m: Index, trees: Trees, trees': Trees, d: Path, x: string, y: string, t: Tree)
    requires Ready(m, trees, d + [y]) && ChangedBelow(trees, trees', d + [x]) && x != y && d in trees
    ensures Ready(m, trees'[d := t], d + [y])
  {
    hide Mirrors;
    var trees2 := trees'[d := t];
    assert trees2.Keys == trees.Keys;
    forall q | q in trees2 && d + [y] <= q ensures Mirrors(m, trees2.Keys, q, trees2[q]) {
      assert q[|d|] == (d + [y])[|d|] == y && (d + [x])[|d|] == x;
    }
  }

  /** Hashes do not matter for names and order. */
  lemma SameOrder(t: Tree, t': Tree)
    requires InOrder(t) && NamesApart(t) && |t'| == |t| && forall i :: 0 <= i < |t| ==> t'[i].name == t[i].name && t'[i].mode == t[i].mode
    ensures InOrder(t') && NamesApart(t') && forall x :: HasName(t, x) ==> HasName(t', x)
  {
    hide Below;
    assert forall i :: 0 <= i < |t| ==> SortName(t'[i]) == SortName(t[i]);
    forall x | HasName(t, x) ensures HasName(t', x) {
      var i :| 0 <= i < |t| && t[i].name == x;
      assert t'[i].name == x;
    }
  }

  lemma {:induction false} CopyEnd(store: TreeStore, m: Index, trees: Trees, d: Path, t: Tree, n: nat)
    requires Copying(store, m, trees, d, t, |t|, n) && Layered(m, trees.Keys)
    ensures AnyBadName(t) <==> BadBelow(m, trees.Keys, d)
    ensures !AnyBadName(t) ==> TreeStored(store, t, m, trees.Keys, d, n)
  {
    hide InOrder, Layered;
    if i :| 0 <= i < |t| && BadName(t[i].name) {
      assert EntryStored(store, m, trees.Keys, d, t[i], n);
      BadHere(m, trees.Keys, d, t[i].name);
    } else {
      forall x: string | d + [x] in trees.Keys ensures !BadBelow(m, trees.Keys, d + [x]) {
        assert HasName(t, x);
        var i :| 0 <= i < |t| && t[i].name == x;
        assert d + [t[i].name] in trees;
      }
      NoneBadBelow(m, trees.Keys, d, t);
    }
  }

  /** Different trees have different hashes. */
  ghost predicate CollisionFree(digest: Tree -> Hash) {
    forall s: Tree, t: Tree :: digest(s) == digest(t) ==> s == t
  }

  class BuildTreeHelper {
    var trees: Trees
    var store: TreeStore
    const digest: Tree -> Hash

    ghost predicate StoreOk()
      reads this
    {
      CollisionFree(digest) && forall h :: h in store ==> digest(store[h]) == h
    }

    constructor (store: TreeStore, digest: Tree -> Hash)
      requires CollisionFree(digest) && forall h :: h in store ==> digest(store[h]) == h
      ensures StoreOk() && this.store == store && this.digest == digest && trees == map[[] := []]
    {
      this.store, this.digest, trees := store, digest, map[[] := []];
    }

    /** `doBuildTree`. */
    method DoBuildTree(e: IndexEntry, k: nat)
      requires k < |e.path| && e.path[..k] in trees
      modifies this`trees
      ensures trees == Placed(old(trees), e, k)
      ensures k + 1 < |e.path| ==> e.path[..k + 1] in trees
      ensures old(trees).Keys <= trees.Keys
    {
      var parent, full := e.path[..k], e.path[..k + 1];
      if full in trees {
        return;
      }
      assert full != parent;
      var te := Entry(e.path[k], DIR, ZERO_HASH);
      if full == e.path {
        te := te.(mode := e.leaf.mode, hash := e.leaf.hash);
      } else {
        trees := trees[full := []];
      }
      trees := trees[parent := trees[parent] + [te]];
    }

    /** `commitIndexEntry`. */
    method CommitIndexEntry(e: IndexEntry)
      requires [] in trees
      modifies this`trees
      ensures trees == PlacedTo(old(trees), e, |e.path|) && [] in trees
    {
      for k := 0 to |e.path|
        invariant trees == PlacedTo(old(trees), e, k) && [] in trees
        invariant k < |e.path| ==> e.path[..k] in trees
      {
        DoBuildTree(e, k);
      }
    }

    /** `copyTreeToStorageRecursive`. */
    method CopyTreeToStorageRecursive(parent: Path, ghost m: Index, ghost n: nat) returns (r: Result<Hash>)
      requires StoreOk() && parent in trees && Layered(m, trees.Keys)
      requires Ready(m, trees, parent) && Shallow(trees.Keys, parent, n)
      modifies this`trees, this`store
      ensures StoreOk() && trees.Keys == old(trees).Keys
      ensures ChangedBelow(old(trees), trees, parent) && Grown(old(store), store)
      ensures !r.NotSorted?
      ensures r.Ok? ==> Stored(store, r.value, m, trees.Keys, parent, n)
      ensures r.MalformedName? <==> BadBelow(m, trees.Keys, parent)
      decreases n
    {
      hide Copying, Ready, Shallow, BadBelow, Layered, Mirrors, CollisionFree, NamesApart, InOrder, TreeStored, Grown, ChangedBelow, Stored, AnyBadName;
      NamesOf(m, trees, parent);
      var t := SortEntries(trees[parent]);
      CopyStart(store, m, trees, parent, t, n);
      trees := trees[parent := t];
      ChangedHere(old(trees), old(trees), parent, t);
      GrownSelf(store);
      var i := 0;
      while i < |t|
        invariant 0 <= i <= |t| && StoreOk() && parent in trees && trees[parent] == t
        invariant trees.Keys == old(trees).Keys && ChangedBelow(old(trees), trees, parent) && Grown(old(store), store)
        invariant Copying(store, m, trees, parent, t, i, n)
      {
        var e := t[i];
        if e.mode != DIR && e.hash != ZERO_HASH {
          CopyFile(store, m, trees, parent, t, i, n);
          i := i + 1;
          continue;
        }
        IsDirectory(store, m, trees, parent, t, i, n);
        var path := parent + [e.name];
        ghost var store0, trees0 := store, trees;
        var sub := CopyTreeToStorageRecursive(path, m, n - 1);
        StillBelow(old(trees), trees0, trees, parent, e.name);
        GrownTrans(old(store), store0, store);
        if sub.MalformedName? {
          BadHere(m, trees.Keys, parent, e.name);
          return MalformedName;
        }
        CopyDirectory(store0, m, trees0, parent, t, i, n, store, trees, sub.value);
        t := t[i := e.(hash := sub.value)];
        ChangedHere(old(trees), trees, parent, t);
        trees := trees[parent := t];
        i := i + 1;
      }
      CopyEnd(store, m, trees, parent, t, n);
      InOrderStill(store, m, trees, parent, t, n);
      ghost var store1 := store;
      r := WriteTree(t);
      if r.Ok? {
        StoredNow(store1, store, r.value, t, m, trees.Keys, parent, n);
      }
      GrownTrans(old(store), store1, store);
    }

    /** `BuildTree`: what the root tree leads to is exactly the index. */
    method BuildTreeOf(es: seq<IndexEntry>) returns (r: Result<Hash>)
      requires StoreOk() && Clean(es) && Files(es)
      modifies this
      ensures StoreOk() && Grown(old(store), store) && !r.NotSorted?
      ensures r.MalformedName? <==> exists i, k :: 0 <= i < |es| && 0 <= k < |es[i].path| && BadName(es[i].path[k])
      ensures r.Ok? ==> Stored(store, r.value, IndexOf(es, |es|), LaidOut(es, |es|).Keys, [], Depth(es, |es|))
      ensures r.Ok? ==> forall p :: Lookup(store, r.value, p) == At(IndexOf(es, |es|), p)
      ensures r.Ok? ==> forall p :: TreeAt(store, r.value, p).Some? ==> GitOrder(TreeAt(store, r.value, p).value)
    {
      hide Clean, Files, Placed, Stored, Laying, BadName, GitOrder;
      trees := map[[] := []];
      for i := 0 to |es|
        invariant trees == LaidOut(es, i) && [] in trees && store == old(store) && StoreOk()
      {
        CommitIndexEntry(es[i]);
      }
      ghost var m, n := IndexOf(es, |es|), Depth(es, |es|);
      LaysOut(es, |es|);
      LaidReady(es);
      r := CopyTreeToStorageRecursive([], m, n);
      BadAnywhere(es);
      if r.Ok? {
        forall p ensures Lookup(store, r.value, p) == At(m, p) {
          if p == [] {
            NoRoot(es);
          } else {
            LookupIs(store, r.value, m, trees.Keys, [], n, p);
            assert [] + p == p;
          }
        }
        forall p | TreeAt(store, r.value, p).Some? ensures GitOrder(TreeAt(store, r.value, p).value) {
          TreesInOrder(store, r.value, m, trees.Keys, [], n, p);
        }
      }
    }

    /** Encodes a tree and stores it, unless it is there already. */
    method WriteTree(t: Tree) returns (r: Result<Hash>)
      requires StoreOk() && InOrder(t)
      modifies this`store
      ensures StoreOk() && Grown(old(store), store) && !r.NotSorted?
      ensures r.Ok? ==> r.value in store && store[r.value] == t
      ensures r.MalformedName? <==> AnyBadName(t)
    {
      OrderIs(t);
      var encoded := EncodeTree(t);
      if !encoded.Ok? {
        return MalformedName;
      }
      var hash := digest(t);
      SameHash(digest, store, t);
      if hash !in store {
        store := store[hash := t];
      }
      return Ok(hash);
    }
  }

  lemma NamesOf(m: Index, trees: Trees, d: Path)
    requires d in trees && Ready(m, trees, d)
    ensures NamesApart(trees[d])
  {
    assert Mirrors(m, trees.Keys, d, trees[d]);
  }

  /** An entry that is no file is a directory with a tree. */
  lemma IsDirectory(store: TreeStore, m: Index, trees: Trees, d: Path, t: Tree, i: nat, n: nat)
    requires Copying(store, m, trees, d, t, i, n) && i < |t| && Layered(m, trees.Keys) && Shallow(trees.Keys, d, n)
    requires t[i].mode == DIR || t[i].hash == ZERO_HASH
    ensures t[i].mode == DIR && d + [t[i].name] in trees && n > 0
    ensures Ready(m, trees, d + [t[i].name]) && Shallow(trees.Keys, d + [t[i].name], n - 1)
  {
    var q := d + [t[i].name];
    assert EntryFor(m, trees.Keys, d, t[i]);
    assert d <= q;
    forall p | p in trees.Keys && q <= p ensures |p| <= |q| + n - 1 {
      assert d <= p;
    }
  }

  lemma ChangedHere(trees: Trees, trees': Trees, d: Path, t: Tree)
    requires d in trees && (trees' == trees || ChangedBelow(trees, trees', d))
    ensures ChangedBelow(trees, trees'[d := t], d) && trees'[d := t].Keys == trees.Keys
  {
  }

  lemma GrownSelf(a: TreeStore)
    ensures Grown(a, a)
  {
  }

  lemma GrownTrans(a: TreeStore, b: TreeStore, c: TreeStore)
    requires Grown(a, b) && Grown(b, c)
    ensures Grown(a, c)
  {
  }

  lemma StillBelow(trees: Trees, trees0: Trees, trees': Trees, d: Path, x: string)
    requires ChangedBelow(trees, trees0, d) && ChangedBelow(trees0, trees', d + [x])
    ensures ChangedBelow(trees, trees', d) && trees'.Keys == trees0.Keys
    ensures d in trees ==> d in trees' && trees'[d] == trees0[d]
  {
    forall q | q in trees && !(d <= q) ensures trees'[q] == trees[q] {
      assert d <= d + [x];
    }
  }

  lemma InOrderStill(store: TreeStore, m: Index, trees: Trees, d: Path, t: Tree, n: nat)
    requires Copying(store, m, trees, d, t, |t|, n)
    ensures InOrder(t)
  {
  }

  lemma SameHash(digest: Tree -> Hash, store: TreeStore, t: Tree)
    requires CollisionFree(digest) && forall h :: h in store ==> digest(store[h]) == h
    ensures digest(t) in store ==> store[digest(t)] == t
  {
  }

  lemma {:induction false} StoredNow(store: TreeStore, store': TreeStore, h: Hash, t: Tree, m: Index, dirs: set<Path>,
                                     d: Path, n: nat)
    requires TreeStored(store, t, m, dirs, d, n) && Grown(store, store') && h in store' && store'[h] == t
    ensures Stored(store', h, m, dirs, d, n)
  {
    hide InOrder, NamesApart;
    forall i | 0 <= i < |t| ensures EntryStored(store', m, dirs, d, t[i], n) {
      EntryStill(store, store', m, dirs, d, t[i], n);
    }
  }

  // --- The layout as a whole ------------------------------------------------------------------

  /** Every entry of the index is a file with a hash. */
  ghost predicate Files(es: seq<IndexEntry>) {
    forall i :: 0 <= i < |es| ==> es[i].leaf.mode != DIR && es[i].leaf.hash != ZERO_HASH
  }

  ghost function Depth(es: seq<IndexEntry>, n: nat): nat
    requires n <= |es|
  {
    if n == 0 then 0 else if |es[n - 1].path| > Depth(es, n - 1) then |es[n - 1].path| else Depth(es, n - 1)
  }

  lemma {:induction false} DepthOver(es: seq<IndexEntry>, n: nat, i: nat)
    requires i < n <= |es|
    ensures |es[i].path| <= Depth(es, n)
  {
    if i < n - 1 {
      DepthOver(es, n - 1, i);
    }
  }

  /** The trees of a clean index are ready to be written. */
  lemma {:induction false} LaidReady(es: seq<IndexEntry>)
    requires Clean(es) && Files(es) && Laying(es, |es|, 0, LaidOut(es, |es|))
    ensures var m, trees := IndexOf(es, |es|), LaidOut(es, |es|);
            [] in trees && Layered(m, trees.Keys) && Ready(m, trees, []) && Shallow(trees.Keys, [], Depth(es, |es|))
  {
    hide Mirrors, LaidOut, IndexOf, Clean, Files, IsDir;
    var n := |es|;
    var m, trees := IndexOf(es, n), LaidOut(es, n);
    forall p | p in m ensures p !in trees && m[p].mode != DIR && m[p].hash != ZERO_HASH {
      FileApart(es, p);
    }
    forall p, k | p in m && 0 <= k < |p| ensures p[..k] in trees {
      FileAbove(es, p, k);
    }
    forall p, k | p in trees && 0 <= k < |p| ensures p[..k] in trees {
      DirAbove(es, p, k);
    }
    forall q | q in trees && [] <= q ensures |q| <= Depth(es, n) {
      DirDepth(es, q);
    }
    assert IsDir(es, n, 0, []) by {
      RootDir(es);
    }
  }

  lemma RootDir(es: seq<IndexEntry>)
    ensures IsDir(es, |es|, 0, [])
  {
  }

  lemma {:induction false} FileApart(es: seq<IndexEntry>, p: Path)
    requires Clean(es) && Files(es) && p in IndexOf(es, |es|)
    ensures !IsDir(es, |es|, 0, p)
    ensures IndexOf(es, |es|)[p].mode != DIR && IndexOf(es, |es|)[p].hash != ZERO_HASH
  {
    hide IsDir, Clean;
    IndexFrom(es, |es|, p);
    CleanApart(es, p);
  }

  lemma {:induction false} FileAbove(es: seq<IndexEntry>, p: Path, k: nat)
    requires p in IndexOf(es, |es|) && k < |p|
    ensures IsDir(es, |es|, 0, p[..k])
  {
    IndexFrom(es, |es|, p);
    assert p[..k] < p;
  }

  lemma DirAbove(es: seq<IndexEntry>, p: Path, k: nat)
    requires IsDir(es, |es|, 0, p) && k < |p|
    ensures IsDir(es, |es|, 0, p[..k])
  {
    var i :| 0 <= i < |es| && p < es[i].path;
    assert p[..k] < es[i].path;
  }

  lemma {:induction false} DirDepth(es: seq<IndexEntry>, p: Path)
    requires IsDir(es, |es|, 0, p)
    ensures |p| <= Depth(es, |es|)
  {
    if p != [] {
      var i :| 0 <= i < |es| && p < es[i].path;
      DepthOver(es, |es|, i);
    }
  }

  /** The path of an entry is no directory. */
  lemma CleanApart(es: seq<IndexEntry>, p: Path)
    requires Clean(es) && exists i :: 0 <= i < |es| && es[i].path == p
    ensures !IsDir(es, |es|, 0, p)
  {
    var i :| 0 <= i < |es| && es[i].path == p;
    forall j | 0 <= j < |es| ensures !(p < es[j].path) {
      if i != j {
        assert !(es[i].path <= es[j].path);
      }
    }
  }

  lemma {:induction false} NoRoot(es: seq<IndexEntry>)
    requires Clean(es)
    ensures [] !in IndexOf(es, |es|)
  {
    if [] in IndexOf(es, |es|) {
      IndexFrom(es, |es|, []);
    }
  }

  lemma {:induction false} BadAnywhere(es: seq<IndexEntry>)
    requires Clean(es) && Laying(es, |es|, 0, LaidOut(es, |es|))
    ensures BadBelow(IndexOf(es, |es|), LaidOut(es, |es|).Keys, []) <==>
            exists i, k :: 0 <= i < |es| && 0 <= k < |es[i].path| && BadName(es[i].path[k])
  {
    hide AllMirror, BadName, LaidOut, IndexOf, Clean;
    var n := |es|;
    var m, dirs := IndexOf(es, n), LaidOut(es, n).Keys;
    if i, k :| 0 <= i < n && 0 <= k < |es[i].path| && BadName(es[i].path[k]) {
      var q := es[i].path[..k + 1];
      if k + 1 == |es[i].path| {
        assert q == es[i].path;
        IndexHas(es, n, i);
      } else {
        assert q < es[i].path;
        assert IsDir(es, n, 0, q);
      }
      assert [] < q && q[|q| - 1] == es[i].path[k];
    } else {
      forall q | (q in m || q in dirs) && [] < q ensures !BadName(q[|q| - 1]) {
        if q in m {
          IndexFrom(es, n, q);
        } else {
          var i :| 0 <= i < n && q < es[i].path;
          assert q[|q| - 1] == es[i].path[|q| - 1];
        }
      }
    }
  }

  /** The index of `a/x` and `a.b`: in the tree of the root, `a.b` comes before `a`. */
  method SlashExample(digest: Tree -> Hash) returns (root: Tree)
    requires CollisionFree(digest)
    ensures exists i, j :: 0 <= i < j < |root| && root[i].name == "a.b" && root[j].name == "a" && root[j].mode == DIR
  {
    hide CollisionFree, Stored, GitOrder, LaidOut, Depth;
    var es := [IndexEntry(["a", "x"], Leaf(REGULAR, 1)), IndexEntry(["a.b"], Leaf(REGULAR, 2))];
    var b := new BuildTreeHelper(map[], digest);
    assert Clean(es) by { TwoClean(es); }
    assert forall i, k :: 0 <= i < |es| && 0 <= k < |es[i].path| ==> !BadName(es[i].path[k]);
    var r := b.BuildTreeOf(es);
    TwoIndexed(es);
    assert Lookup(b.store, r.value, ["a", "x"]).Some? && Lookup(b.store, r.value, ["a.b"]).Some?;
    root := b.store[r.value];
    assert TreeAt(b.store, r.value, []) == Some(root);
    FindIs(root, "a");
    FindIs(root, "a.b");
    var j :| 0 <= j < |root| && root[j] == Find(root, "a").value;
    var i :| 0 <= i < |root| && root[i] == Find(root, "a.b").value;
    DotBeforeSlash(root, j, i);
  }

  lemma TwoClean(es: seq<IndexEntry>)
    requires |es| == 2 && es[0].path == ["a", "x"] && es[1].path == ["a.b"]
    ensures Clean(es)
  {
    assert es[0].path[0] == "a" && es[1].path[0] == "a.b" && |"a"| != |"a.b"|;
    assert !(es[0].path <= es[1].path) && !(es[1].path <= es[0].path);
  }

  lemma {:induction false} TwoIndexed(es: seq<IndexEntry>)
    requires |es| == 2
    ensures es[1].path in IndexOf(es, 2) && es[0].path in IndexOf(es, 2)
  {
    assert IndexOf(es, 1) == map[es[0].path := es[0].leaf];
  }
}
