/** utils/merkletrie: the difference of two tries, computed by walking both in lock step
    and skipping subtrees with equal hashes, against the plain difference of their files. */
module DiffTree {
  import opened Ordering
  import opened Tries
  import opened Wrappers

  /** A `Change`: nothing before means an insertion, nothing after a deletion. */
  datatype Change = Change(from: Option<Entry>, to: Option<Entry>)

  function NewInsert(e: Entry): Change { Change(None, Some(e)) }

  function NewDelete(e: Entry): Change { Change(Some(e), None) }

  function NewModify(a: Entry, b: Entry): Change { Change(Some(a), Some(b)) }

  // --- The plain difference of two sets of files ------------------------------------------

  ghost predicate Has(s: set<Entry>, p: Path) {
    exists h :: Entry(p, h) in s
  }

  /** `c` belongs to the difference of `a` and `b`: a file only one of them has, or one whose
      hash differs. */
  ghost predicate IsChange(a: set<Entry>, b: set<Entry>, c: Change) {
    match (c.from, c.to)
    case (Some(e), None) => e in a && !Has(b, e.path)
    case (None, Some(e)) => e in b && !Has(a, e.path)
    case (Some(d), Some(e)) => d in a && e in b && d.path == e.path && d.hash != e.hash
    case (None, None) => false
  }

  ghost predicate PathsApart(s: set<Entry>, t: set<Entry>) {
    forall d, e :: d in s && e in t ==> d.path != e.path
  }

  /** The difference of files that lie apart is the union of the differences. */
  lemma SplitChange(a: set<Entry>, a': set<Entry>, b: set<Entry>, b': set<Entry>, c: Change)
    requires PathsApart(a + b, a' + b')
    ensures IsChange(a + a', b + b', c) <==> IsChange(a, b, c) || IsChange(a', b', c)
  {
    if c.from.Some? && c.to.None? {
      HasUnion(b, b', c.from.value.path);
      ApartHas(a + b, a' + b', c.from.value);
    } else if c.from.None? && c.to.Some? {
      HasUnion(a, a', c.to.value.path);
      ApartHas(a + b, a' + b', c.to.value);
    }
  }

  lemma HasUnion(s: set<Entry>, t: set<Entry>, p: Path)
    ensures Has(s + t, p) <==> Has(s, p) || Has(t, p)
  {
    if Has(s, p) {
      var h :| Entry(p, h) in s;
      assert Entry(p, h) in s + t;
    }
    if Has(t, p) {
      var h :| Entry(p, h) in t;
      assert Entry(p, h) in s + t;
    }
  }

  lemma ApartHas(s: set<Entry>, t: set<Entry>, e: Entry)
    requires PathsApart(s, t)
    ensures e in s ==> !Has(t, e.path)
    ensures e in t ==> !Has(s, e.path)
    ensures forall r :: r <= t && e in s ==> !Has(r, e.path)
    ensures forall r :: r <= s && e in t ==> !Has(r, e.path)
  {
  }

  // --- One path, one hash --------------------------------------------------------------------

  ghost predicate Functional(s: set<Entry>) {
    forall d, e :: d in s && e in s && d.path == e.path ==> d.hash == e.hash
  }

  lemma UnderFunctional(p: Path, s: set<Entry>)
    requires Functional(s)
    ensures Functional(Under(p, s))
  {
    forall d, e | d in Under(p, s) && e in Under(p, s) && d.path == e.path
      ensures d.hash == e.hash
    {
      var d' :| d' in s && d == Entry(p + d'.path, d'.hash);
      var e' :| e' in s && e == Entry(p + e'.path, e'.hash);
      assert d'.path == d.path[|p|..] == e'.path;
    }
  }

  lemma {:induction false} FilesFunctional(n: Node)
    requires WellFormed(n)
    ensures Functional(Files(n))
    decreases n, 0
  {
    if n.isDir {
      FilesInFunctional(n.children);
    }
  }

  lemma {:induction false} FilesInFunctional(nodes: seq<Node>)
    requires Apart(nodes) && forall i :: 0 <= i < |nodes| ==> WellFormed(nodes[i])
    ensures Functional(FilesIn(nodes))
    decreases nodes
  {
    if nodes != [] {
      var first, rest := Under([nodes[0].name], Files(nodes[0])), nodes[1..];
      FilesFunctional(nodes[0]);
      UnderFunctional([nodes[0].name], Files(nodes[0]));
      assert forall i :: 0 <= i < |rest| ==> rest[i] == nodes[i + 1];
      FilesInFunctional(rest);
      forall d, e | d in first && e in FilesIn(rest) ensures d.path != e.path {
        FilesInNames(rest, e);
        assert d.path[0] == nodes[0].name;
      }
    }
  }

  // --- What the walk keeps --------------------------------------------------------------------

  ghost predicate NoRepeats(s: seq<Change>) {
    forall i, j :: 0 <= i < j < |s| ==> s[i] != s[j]
  }

  /** The changes found so far, and the difference of the files still ahead. */
  ghost predicate Found(a: set<Entry>, b: set<Entry>, changes: seq<Change>, ra: set<Entry>, rb: set<Entry>) {
    && NoRepeats(changes)
    && (forall c :: IsChange(a, b, c) <==> c in changes || IsChange(ra, rb, c))
    && (forall c :: c in changes ==> !IsChange(ra, rb, c))
  }

  ghost predicate Lists(added: seq<Change>, a: set<Entry>, b: set<Entry>) {
    NoRepeats(added) && forall c :: c in added <==> IsChange(a, b, c)
  }

  /** Files that lie apart from all that is still ahead can be dealt with now. */
  lemma FoundMore(a: set<Entry>, b: set<Entry>, changes: seq<Change>, a1: set<Entry>, a2: set<Entry>,
                  b1: set<Entry>, b2: set<Entry>, added: seq<Change>)
    requires Found(a, b, changes, a1 + a2, b1 + b2)
    requires PathsApart(a1 + b1, a2 + b2) && Lists(added, a1, b1)
    ensures Found(a, b, changes + added, a2, b2)
  {
    forall c ensures IsChange(a1 + a2, b1 + b2, c) <==> IsChange(a1, b1, c) || IsChange(a2, b2, c) {
      SplitChange(a1, a2, b1, b2, c);
    }
    assert forall c :: c in changes + added <==> c in changes || c in added;
    forall c | c in added ensures !IsChange(a2, b2, c) {
      NotTwice(a1, a2, b1, b2, c);
    }
    forall i, j | 0 <= i < j < |changes + added| ensures (changes + added)[i] != (changes + added)[j] {
      if i < |changes| <= j {
        assert added[j - |changes|] in added && changes[i] in changes;
      }
    }
  }

  lemma NotTwice(a1: set<Entry>, a2: set<Entry>, b1: set<Entry>, b2: set<Entry>, c: Change)
    requires PathsApart(a1 + b1, a2 + b2) && IsChange(a1, b1, c)
    ensures !IsChange(a2, b2, c)
  {
  }

  /** Neither walker has its position inside a directory the other one has yet to enter. */
  ghost predicate InStep(x: Path, y: Path) {
    && (forall k :: 0 < k < |y| ==> PathBelow(y[..k], x))
    && (forall k :: 0 < k < |x| ==> PathBelow(x[..k], y))
  }

  ghost predicate Walking(a: set<Entry>, b: set<Entry>, changes: seq<Change>, sf: Stack, st: Stack, meaning: Meaning) {
    && StackOk(sf, meaning) && StackOk(st, meaning)
    && Found(a, b, changes, Ahead([], sf), Ahead([], st))
    && (sf != [] && st != [] ==> InStep(At([], sf), At([], st)))
  }

  // --- Positions ----------------------------------------------------------------------------------

  /** After a drop the walker stands on a later sibling of the node or of one of its ancestors. */
  lemma {:induction false} DropPosition(stack: Stack, meaning: Meaning) returns (i: nat)
    requires StackOk(stack, meaning) && Drop(stack) != []
    ensures StackOk(Drop(stack), meaning)
    ensures ForksBelow(At([], stack), At([], Drop(stack)), i) && |At([], Drop(stack))| == i + 1
  {
    DropOk(stack, meaning);
    var n := |stack| - 1;
    var below, top := stack[..n], stack[n];
    assert stack == below + [top] && FrameOk(top, meaning);
    AtExtend([], below, top);
    if |top| > 1 {
      AtExtend([], below, top[1..]);
      i := |At([], below)|;
      assert (At([], below) + [top[0].name])[..i] == At([], below) == (At([], below) + [top[1].name])[..i];
    } else {
      i := DropPosition(below, meaning);
      assert (At([], below) + [top[0].name])[..i] == At([], below)[..i];
    }
  }

  lemma InStepDrop(x: Path, y: Path, x': Path, i: nat)
    requires InStep(x, y) && ForksBelow(x, x', i) && |x'| == i + 1
    ensures InStep(x', y)
  {
    ForkIsBelow(x, x', i);
    forall k | 0 < k < |y| ensures PathBelow(y[..k], x') {
      PathBelowTransitive(y[..k], x, x');
    }
    forall k | 0 < k < |x'| ensures PathBelow(x'[..k], y) {
      assert x'[..k] == x'[..i][..k] == x[..i][..k] == x[..k];
    }
  }

  lemma InStepSelf(x: Path)
    ensures InStep(x, x)
  {
    forall k | 0 < k < |x| ensures PathBelow(x[..k], x) {
      PrefixIsBelow(x[..k], x);
    }
  }

  lemma InStepDown(x: Path, a: string, b: string)
    ensures InStep(x + [a], x + [b])
  {
    forall k, c, d | 0 < k < |x + [c]| ensures PathBelow((x + [c])[..k], x + [d]) {
      assert (x + [c])[..k] == x[..k] == (x + [d])[..k];
      PrefixIsBelow((x + [d])[..k], x + [d]);
    }
  }

  lemma {:induction false} AboveIsNotInStep(x: Path, y: Path)
    requires x != [] && x <= y && PathBelow(x, y)
    ensures !InStep(x, y)
  {
    PathBelowIrreflexive(x);
    assert y[..|x|] == x;
    assert |x| == |y| ==> x == y;
  }

  /** A walker that is behind and in step forks off: it is not above the other one. */
  lemma BehindForks(x: Path, y: Path) returns (i: nat)
    requires InStep(x, y) && PathBelow(x, y) && x != []
    ensures ForksBelow(x, y, i)
  {
    if x <= y {
      AboveIsNotInStep(x, y);
    }
    i := BelowForks(x, y);
  }

  lemma {:induction false} HereApartFromAfter(sf: Stack, st: Stack, meaning: Meaning)
    requires StackOk(sf, meaning) && StackOk(st, meaning) && sf != [] && st != [] && At([], sf) == At([], st)
    ensures PathsApart(Here([], sf), After([], st))
  {
    forall d, e | d in Here([], sf) && e in After([], st) ensures d.path != e.path {
      HereIsBelow([], sf, d);
      assert forall i :: 0 <= i < |st| ==> FrameOk(st[i], meaning);
      AfterIsLater([], st, e);
      var i: nat :| ForksBelow(At([], st), e.path, i);
      ForkedApart(At([], st), e.path, i, d.path, e.path);
    }
  }

  lemma HereApartFromAhead(sf: Stack, st: Stack, meaning: Meaning)
    requires StackOk(sf, meaning) && StackOk(st, meaning) && sf != []
    requires st != [] ==> InStep(At([], sf), At([], st)) && PathBelow(At([], sf), At([], st))
    ensures PathsApart(Here([], sf), Ahead([], st))
  {
    forall d, e | d in Here([], sf) && e in Ahead([], st) ensures d.path != e.path {
      var x, y := At([], sf), At([], st);
      HereIsBelow([], sf, d);
      var i := BehindForks(x, y);
      if e in Here([], st) {
        HereIsBelow([], st, e);
        ForkedApart(x, y, i, d.path, e.path);
      } else {
        assert forall i :: 0 <= i < |st| ==> FrameOk(st[i], meaning);
        AfterIsLater([], st, e);
        var j: nat :| ForksBelow(y, e.path, j);
        var k := ForksCompose(x, y, i, e.path, j);
        ForkedApart(x, e.path, k, d.path, e.path);
      }
    }
  }

  // --- The steps of the walk --------------------------------------------------------------------

  lemma {:induction false} DeleteStep(a: set<Entry>, b: set<Entry>, changes: seq<Change>, sf: Stack, st: Stack,
                                      meaning: Meaning, added: seq<Change>)
    requires Walking(a, b, changes, sf, st, meaning) && sf != []
    requires st != [] ==> PathBelow(At([], sf), At([], st))
    requires Lists(added, Here([], sf), {})
    ensures Walking(a, b, changes + added, Drop(sf), st, meaning) && Load(Drop(sf)) < Load(sf)
  {
    hide Found, Lists, StackOk, After, Here, Drop, At, Load, Nodes, PathBelow;
    DropOk(sf, meaning);
    StackFrames(sf, meaning);
    StackFrames(st, meaning);
    DropAhead([], sf);
    HereApartFromAfter(sf, sf, meaning);
    HereApartFromAhead(sf, st, meaning);
    assert {} + Ahead([], st) == Ahead([], st);
    FoundMore(a, b, changes, Here([], sf), After([], sf), {}, Ahead([], st), added);
    if Drop(sf) != [] && st != [] {
      var i := DropPosition(sf, meaning);
      InStepDrop(At([], sf), At([], st), At([], Drop(sf)), i);
    }
  }

  lemma StackFrames(stack: Stack, meaning: Meaning)
    requires StackOk(stack, meaning)
    ensures forall i :: 0 <= i < |stack| ==> stack[i] != []
  {
  }

  lemma {:induction false} InsertStep(a: set<Entry>, b: set<Entry>, changes: seq<Change>, sf: Stack, st: Stack,
                                      meaning: Meaning, added: seq<Change>)
    requires Walking(a, b, changes, sf, st, meaning) && st != []
    requires sf != [] ==> PathBelow(At([], st), At([], sf))
    requires Lists(added, {}, Here([], st))
    ensures Walking(a, b, changes + added, sf, Drop(st), meaning) && Load(Drop(st)) < Load(st)
  {
    hide Found, Lists, StackOk, After, Here, Drop, At, Load, Nodes, PathBelow;
    DropOk(st, meaning);
    StackFrames(sf, meaning);
    StackFrames(st, meaning);
    DropAhead([], st);
    HereApartFromAfter(st, st, meaning);
    HereApartFromAhead(st, sf, meaning);
    assert {} + Ahead([], sf) == Ahead([], sf);
    FoundMore(a, b, changes, {}, Ahead([], sf), Here([], st), After([], st), added);
    if sf != [] && Drop(st) != [] {
      var i := DropPosition(st, meaning);
      InStepDrop(At([], st), At([], sf), At([], Drop(st)), i);
    }
  }

  lemma {:induction false} BothStep(a: set<Entry>, b: set<Entry>, changes: seq<Change>, sf: Stack, st: Stack,
                                    meaning: Meaning, added: seq<Change>)
    requires Walking(a, b, changes, sf, st, meaning) && sf != [] && st != [] && At([], sf) == At([], st)
    requires Lists(added, Here([], sf), Here([], st))
    ensures Walking(a, b, changes + added, Drop(sf), Drop(st), meaning)
    ensures Load(Drop(sf)) < Load(sf) && Load(Drop(st)) < Load(st)
  {
    hide Found, Lists, StackOk, After, Here, Drop, At, Load, Nodes, PathBelow;
    DropOk(sf, meaning);
    DropOk(st, meaning);
    StackFrames(sf, meaning);
    StackFrames(st, meaning);
    DropAhead([], sf);
    DropAhead([], st);
    HereApartFromAfter(sf, sf, meaning);
    HereApartFromAfter(sf, st, meaning);
    HereApartFromAfter(st, sf, meaning);
    HereApartFromAfter(st, st, meaning);
    FoundMore(a, b, changes, Here([], sf), After([], sf), Here([], st), After([], st), added);
    if Drop(sf) != [] && Drop(st) != [] {
      var x := At([], sf);
      InStepSelf(x);
      var i := DropPosition(sf, meaning);
      InStepDrop(x, x, At([], Drop(sf)), i);
      var j := DropPosition(st, meaning);
      InStepDrop(x, At([], Drop(sf)), At([], Drop(st)), j);
    }
  }

  lemma DescendStep(a: set<Entry>, b: set<Entry>, changes: seq<Change>, sf: Stack, st: Stack, meaning: Meaning)
    requires Walking(a, b, changes, sf, st, meaning) && sf != [] && st != [] && At([], sf) == At([], st)
    requires sf[|sf| - 1] != [] && st[|st| - 1] != []
    requires sf[|sf| - 1][0].isDir && sf[|sf| - 1][0].children != []
    requires st[|st| - 1][0].isDir && st[|st| - 1][0].children != []
    ensures var sf', st' := sf + [Sorted(sf[|sf| - 1][0].children)], st + [Sorted(st[|st| - 1][0].children)];
            Walking(a, b, changes, sf', st', meaning) && Load(sf') < Load(sf) && Load(st') < Load(st)
  {
    hide Found, StackOk;
    StackFrames(sf, meaning);
    StackFrames(st, meaning);
    DescendOk(sf, meaning);
    DescendOk(st, meaning);
    DescendAhead([], sf);
    DescendAhead([], st);
    var kf, kt := Sorted(sf[|sf| - 1][0].children), Sorted(st[|st| - 1][0].children);
    StackFrames(sf + [kf], meaning);
    StackFrames(st + [kt], meaning);
    AtExtend([], sf, kf);
    AtExtend([], st, kt);
    InStepDown(At([], sf), kf[0].name, kt[0].name);
  }

  // --- Two nodes with the same name ---------------------------------------------------------------

  ghost function Top(stack: Stack): Node
    requires stack != [] && stack[|stack| - 1] != []
  {
    stack[|stack| - 1][0]
  }

  lemma TopOk(stack: Stack, meaning: Meaning)
    requires StackOk(stack, meaning) && stack != []
    ensures stack[|stack| - 1] != []
    ensures WellFormed(Top(stack)) && Honest(Top(stack), meaning)
    ensures meaning(Top(stack).hash) == (Top(stack).isDir, Files(Top(stack)))
    ensures Functional(Here([], stack))
  {
    assert FrameOk(stack[|stack| - 1], meaning);
    FilesFunctional(Top(stack));
    UnderFunctional(At([], stack), Files(Top(stack)));
  }

  /** Equal hashes stand for equal files: nothing changed. */
  lemma SameHashNoChange(sf: Stack, st: Stack, meaning: Meaning)
    requires StackOk(sf, meaning) && StackOk(st, meaning) && sf != [] && st != [] && At([], sf) == At([], st)
    requires sf[|sf| - 1] != [] && st[|st| - 1] != [] && Top(sf).hash == Top(st).hash
    ensures Lists([], Here([], sf), Here([], st))
  {
    TopOk(sf, meaning);
    TopOk(st, meaning);
    assert Here([], sf) == Here([], st);
  }

  lemma FileHere(stack: Stack)
    requires stack != [] && (forall i :: 0 <= i < |stack| ==> stack[i] != []) && !Top(stack).isDir
    ensures Here([], stack) == {Entry(At([], stack), Top(stack).hash)}
  {
    assert At([], stack) + [] == At([], stack);
    UnderHas(At([], stack), Files(Top(stack)), Entry([], Top(stack).hash));
  }

  lemma EmptyDirHere(stack: Stack)
    requires stack != [] && (forall i :: 0 <= i < |stack| ==> stack[i] != [])
    requires Top(stack).isDir && Top(stack).children == []
    ensures Here([], stack) == {}
  {
    assert Files(Top(stack)) == {};
  }

  lemma TwoFilesModify(sf: Stack, st: Stack)
    requires sf != [] && (forall i :: 0 <= i < |sf| ==> sf[i] != [])
    requires st != [] && (forall i :: 0 <= i < |st| ==> st[i] != []) && At([], sf) == At([], st)
    requires !Top(sf).isDir && !Top(st).isDir && Top(sf).hash != Top(st).hash
    ensures Lists([NewModify(Entry(At([], sf), Top(sf).hash), Entry(At([], st), Top(st).hash))],
                  Here([], sf), Here([], st))
  {
    FileHere(sf);
    FileHere(st);
    var d, e := Entry(At([], sf), Top(sf).hash), Entry(At([], st), Top(st).hash);
    assert d in {d} && e in {e};
  }

  /** A file and the files of a directory of the same name have different paths. */
  lemma FileAndDirApart(sf: Stack, st: Stack)
    requires sf != [] && (forall i :: 0 <= i < |sf| ==> sf[i] != [])
    requires st != [] && (forall i :: 0 <= i < |st| ==> st[i] != []) && At([], sf) == At([], st)
    requires Top(sf).isDir != Top(st).isDir
    ensures PathsApart(Here([], sf), Here([], st))
  {
    var file, dir := if Top(sf).isDir then st else sf, if Top(sf).isDir then sf else st;
    FileHere(file);
    forall e | e in Here([], dir) ensures e.path != At([], dir) {
      var d :| d in Files(Top(dir)) && e == Entry(At([], dir) + d.path, d.hash);
      FilesInNames(Top(dir).children, d);
    }
  }

  /** Deleting all of one side and inserting all of the other is their difference when they lie apart. */
  lemma ListsBoth(a: set<Entry>, b: set<Entry>, deleted: seq<Change>, inserted: seq<Change>)
    requires PathsApart(a, b) && Lists(deleted, a, {}) && Lists(inserted, {}, b)
    ensures Lists(deleted + inserted, a, b)
  {
    forall c ensures IsChange(a, b, c) <==> IsChange(a, {}, c) || IsChange({}, b, c) {
      assert a + {} == a && {} + b == b;
      SplitChange(a, {}, {}, b, c);
    }
    assert forall c :: c in deleted + inserted <==> c in deleted || c in inserted;
    forall i, j | 0 <= i < j < |deleted + inserted| ensures (deleted + inserted)[i] != (deleted + inserted)[j] {
      if i < |deleted| <= j {
        assert deleted[i] in deleted && inserted[j - |deleted|] in inserted;
      }
    }
  }

  // --- iter.go ---------------------------------------------------------------------------------------

  /** `Iter`: the frame stack, and whether its first node has been handed out. */
  class Iter {
    const base: seq<Node>
    var hasStarted: bool
    var stack: Stack

    /** The frames are never empty, except that of a root without children. */
    predicate Valid()
      reads this
    {
      stack == [[]] || forall i :: 0 <= i < |stack| ==> stack[i] != []
    }

    function Frames(): (s: Stack)
      requires Valid()
      reads this
      ensures forall i :: 0 <= i < |s| ==> s[i] != []
    {
      if stack == [[]] then [] else stack
    }

    function CurrentPath(): Option<seq<Node>>
      requires Valid()
      reads this
    {
      if Frames() == [] then None else Some(base + Heads(Frames()))
    }

    constructor (children: seq<Node>, base: seq<Node>)
      ensures Valid() && this.base == base && !hasStarted
      ensures Frames() == if children == [] then [] else [Sorted(children)]
      ensures fresh(this)
    {
      this.base, hasStarted, stack := base, false, [Sorted(children)];
      SortedFacts(children);
    }

    method Current() returns (p: Option<seq<Node>>)
      requires Valid()
      ensures p == CurrentPath()
    {
      if |stack| == 0 || |stack[|stack| - 1]| == 0 {
        return None;
      }
      var ret := base;
      for i := 0 to |stack|
        invariant ret == base + Heads(stack)[..i]
      {
        ret := ret + [stack[i][0]];
      }
      assert Heads(stack)[..|stack|] == Heads(stack);
      return Some(ret);
    }

    method DropCurrent()
      requires forall i :: 0 <= i < |stack| ==> stack[i] != []
      modifies this`stack
      ensures stack == Drop(old(stack))
      decreases |stack|
    {
      var top := |stack| - 1;
      if top < 0 {
        return;
      }
      var frame := stack[top][1..];
      if |frame| == 0 {
        stack := stack[..top];
        DropCurrent();
      } else {
        stack := stack[..top] + [frame];
      }
    }

    /** `advance`: the first call hands out the first node; later ones go down into the
        current node, if wanted and possible, or past it. */
    method Advance(wantDescend: bool) returns (p: Option<seq<Node>>)
      requires Valid()
      modifies this
      ensures Valid() && p == CurrentPath()
      ensures hasStarted == (old(hasStarted) || old(Frames()) != [])
      ensures Frames() == Moved(old(hasStarted), old(Frames()), wantDescend)
    {
      p := Current();
      if p.None? {
        return;
      }
      if !hasStarted {
        hasStarted := true;
        return;
      }
      var current := stack[|stack| - 1][0];
      if |current.children| != 0 && wantDescend {
        SortedFacts(current.children);
        stack := stack + [Sorted(current.children)];
      } else {
        DropAhead([], stack);
        DropCurrent();
      }
      p := Current();
    }
  }

  function Moved(started: bool, frames: Stack, wantDescend: bool): Stack
    requires forall i :: 0 <= i < |frames| ==> frames[i] != []
  {
    if frames == [] || !started then frames
    else if frames[|frames| - 1][0].children != [] && wantDescend then
      frames + [Sorted(frames[|frames| - 1][0].children)]
    else Drop(frames)
  }

  // --- change.go --------------------------------------------------------------------------------------

  /** The path of a node list as text, with slashes between the names. */
  function PathString(names: Path): string {
    if names == [] then "" else if |names| == 1 then names[0] else names[0] + "/" + PathString(names[1..])
  }

  /** Names are joined by slashes, so only a single empty name spells the empty string. */
  lemma {:induction false} PathStringIs(p: Path, q: Path)
    requires p != [] && q != []
    ensures PathString(p + q) == PathString(p) + "/" + PathString(q)
    ensures PathString(p) == "" <==> p == [""]
    ensures |p| == 1 ==> PathString(p) == p[0]
  {
    if |p| == 1 {
      assert (p + q)[1..] == q;
    } else {
      PathStringIs(p[1..], q);
      assert (p + q)[1..] == p[1..] + q;
      assert p[0] + "/" + (PathString(p[1..]) + "/" + PathString(q)) == p[0] + "/" + PathString(p[1..]) + "/" + PathString(q);
    }
  }

  function EntryOf(path: seq<Node>): Entry
    requires path != []
  {
    Entry(Names(path), path[|path| - 1].hash)
  }

  function NewChange(e: Entry, insert: bool): Change {
    if insert then NewInsert(e) else NewDelete(e)
  }

  /** `added` are the changes for the files in `s`, each once. */
  ghost predicate Makes(added: seq<Change>, s: set<Entry>, insert: bool) {
    && NoRepeats(added)
    && (forall e :: e in s ==> NewChange(e, insert) in added)
    && (forall c :: c in added ==> exists e :: e in s && c == NewChange(e, insert))
  }

  lemma MakesLists(added: seq<Change>, s: set<Entry>, insert: bool)
    requires Makes(added, s, insert)
    ensures insert ==> Lists(added, {}, s)
    ensures !insert ==> Lists(added, s, {})
  {
    forall c ensures insert ==> (c in added <==> IsChange({}, s, c)) ensures !insert ==> (c in added <==> IsChange(s, {}, c)) {
      if insert && IsChange({}, s, c) {
        assert c == NewChange(c.to.value, insert);
      }
      if !insert && IsChange(s, {}, c) {
        assert c == NewChange(c.from.value, insert);
      }
    }
  }

  /** What is still to be handed out by stepping on: not the current node if it is a file. */
  ghost function Coming(started: bool, base: Path, frames: Stack): set<Entry>
    requires forall i :: 0 <= i < |frames| ==> frames[i] != []
  {
    if frames == [] then {}
    else if started && !Top(frames).isDir then After(base, frames)
    else Ahead(base, frames)
  }

  /** A step hands out what was coming: a file, or a directory whose files are still coming. */
  lemma StepHandsOut(started: bool, base: Path, frames: Stack, meaning: Meaning)
    requires StackOk(frames, meaning) && (forall i :: 0 <= i < |frames| ==> frames[i] != [])
    ensures var next := Moved(started, frames, true);
            && StackOk(next, meaning) && (forall i :: 0 <= i < |next| ==> next[i] != [])
            && Ahead(base, next) == Coming(started, base, frames)
            && Load(next) <= Load(frames) && (started && next != [] ==> Load(next) < Load(frames))
            && (frames == [] ==> next == [])
  {
    if frames != [] && started {
      TopOk(frames, meaning);
      if Top(frames).children != [] {
        DescendAhead(base, frames);
        DescendOk(frames, meaning);
      } else {
        DropAhead(base, frames);
        DropOk(frames, meaning);
        if Top(frames).isDir {
          assert Files(Top(frames)) == {};
        }
      }
    }
  }

  lemma {:induction false} FileComes(base: Path, frames: Stack, meaning: Meaning)
    requires StackOk(frames, meaning) && frames != [] && (forall i :: 0 <= i < |frames| ==> frames[i] != [])
    requires !Top(frames).isDir
    ensures var e := Entry(At(base, frames), Top(frames).hash);
            e !in After(base, frames) && Ahead(base, frames) == {e} + After(base, frames)
  {
    var at := At(base, frames);
    var e := Entry(at, Top(frames).hash);
    assert at + [] == at;
    UnderHas(at, Files(Top(frames)), Entry([], Top(frames).hash));
    assert Here(base, frames) == {e};
    if e in After(base, frames) {
      assert forall i :: 0 <= i < |frames| ==> FrameOk(frames[i], meaning);
      AfterIsLater(base, frames, e);
      var i: nat :| ForksBelow(at, at, i);
      BelowIrreflexive(at[i]);
    }
  }

  lemma MakesOneMore(added: seq<Change>, all: set<Entry>, rest: set<Entry>, e: Entry, insert: bool)
    requires rest <= all && e in rest && Makes(added, all - rest, insert)
    ensures Makes(added + [NewChange(e, insert)], all - (rest - {e}), insert)
  {
    var c := NewChange(e, insert);
    forall i | 0 <= i < |added| ensures added[i] != c {
      assert added[i] in added;
      var d :| d in all - rest && added[i] == NewChange(d, insert);
    }
    forall x | x in added + [c] ensures exists d :: d in all - (rest - {e}) && x == NewChange(d, insert) {
      if x in added {
        var d :| d in all - rest && x == NewChange(d, insert);
      } else {
        assert e in all - (rest - {e});
      }
    }
  }

  /** `addRecursive`: one change for every file at and below the end of the path `root`. */
  method AddRecursive(changes: seq<Change>, root: seq<Node>, insert: bool, ghost meaning: Meaning)
    returns (ok: bool, changes': seq<Change>, ghost added: seq<Change>)
    requires root != [] && WellFormed(root[|root| - 1]) && Honest(root[|root| - 1], meaning)
    ensures ok <==> PathString(Names(root)) != ""
    ensures ok ==> changes' == changes + added
    ensures ok ==> Makes(added, Under(Names(root), Files(root[|root| - 1])), insert)
  {
    var last := root[|root| - 1];
    if PathString(Names(root)) == "" {
      return false, changes, [];
    }
    ghost var all := Under(Names(root), Files(last));
    if !last.isDir {
      added := [NewChange(EntryOf(root), insert)];
      assert Names(root) + [] == Names(root);
      UnderHas(Names(root), Files(last), Entry([], last.hash));
      assert all == {EntryOf(root)};
      return true, changes + [NewChange(EntryOf(root), insert)], added;
    }
    var more := AddFilesBelow(root, insert, meaning);
    return true, changes + more, more;
  }

  /** An iterator below `base` that has yet to hand out the files in `rest`. */
  ghost predicate Serves(iter: Iter, base: seq<Node>, meaning: Meaning, rest: set<Entry>)
    reads iter
  {
    && iter.Valid() && iter.base == base && StackOk(iter.Frames(), meaning)
    && rest == Coming(iter.hasStarted, Names(base), iter.Frames())
  }

  ghost function Left(iter: Iter): nat
    requires iter.Valid()
    reads iter
  {
    (if iter.hasStarted then 0 else 1) + Load(iter.Frames())
  }

  /** One step below `base`. */
  method StepOn(iter: Iter, base: seq<Node>, ghost meaning: Meaning, ghost rest: set<Entry>)
    returns (current: Option<seq<Node>>, ghost rest': set<Entry>)
    requires Serves(iter, base, meaning, rest)
    modifies iter
    ensures Serves(iter, base, meaning, rest')
    ensures current.None? ==> rest == {}
    ensures current.Some? ==> current.value != [] && Left(iter) < old(Left(iter))
    ensures current.Some? ==>
              var path := current.value;
              if path[|path| - 1].isDir then rest' == rest else EntryOf(path) in rest && rest' == rest - {EntryOf(path)}
  {
    hide StackOk, After, Here, Moved, Load, At;
    StepHandsOut(iter.hasStarted, Names(base), iter.Frames(), meaning);
    current := iter.Advance(true);
    rest' := Coming(iter.hasStarted, Names(base), iter.Frames());
    if current.Some? {
      PathAt(base, iter.Frames());
      if !Top(iter.Frames()).isDir {
        FileComes(Names(base), iter.Frames(), meaning);
      }
    }
  }

  /** The loop of `addRecursive` over everything below a directory. */
  method AddFilesBelow(root: seq<Node>, insert: bool, ghost meaning: Meaning) returns (added: seq<Change>)
    requires root != [] && WellFormed(root[|root| - 1]) && Honest(root[|root| - 1], meaning) && root[|root| - 1].isDir
    ensures Makes(added, Under(Names(root), Files(root[|root| - 1])), insert)
  {
    hide Makes, StackOk, Coming, WellFormed, Honest, Under, Files, Load;
    ghost var all := Under(Names(root), Files(root[|root| - 1]));
    var iter := StartBelow(root, meaning);
    added := [];
    ghost var rest := all;
    MakesNothing(all, insert);
    while true
      invariant fresh(iter) && Serves(iter, root, meaning, rest) && rest <= all
      invariant Makes(added, all - rest, insert)
      decreases Left(iter)
    {
      var current, rest' := StepOn(iter, root, meaning, rest);
      if current.None? {
        assert all - {} == all;
        return;
      }
      var path := current.value;
      if !path[|path| - 1].isDir {
        MakesOneMore(added, all, rest, EntryOf(path), insert);
        added := added + [NewChange(EntryOf(path), insert)];
      }
      rest := rest';
    }
  }

  method StartBelow(root: seq<Node>, ghost meaning: Meaning) returns (iter: Iter)
    requires root != [] && WellFormed(root[|root| - 1]) && Honest(root[|root| - 1], meaning) && root[|root| - 1].isDir
    ensures fresh(iter) && Serves(iter, root, meaning, Under(Names(root), Files(root[|root| - 1])))
  {
    iter := new Iter(root[|root| - 1].children, root);
    FirstFrame(root[|root| - 1], Names(root), meaning);
  }

  lemma MakesNothing(all: set<Entry>, insert: bool)
    ensures Makes([], all - all, insert)
  {
  }

  lemma PathAt(base: seq<Node>, frames: Stack)
    requires frames != [] && forall i :: 0 <= i < |frames| ==> frames[i] != []
    ensures Names(base + Heads(frames)) == At(Names(base), frames)
    ensures (base + Heads(frames))[|base| + |frames| - 1] == Top(frames)
  {
  }

  lemma HeadsAt(frames: Stack)
    requires frames != [] && forall i :: 0 <= i < |frames| ==> frames[i] != []
    ensures Names(Heads(frames)) == At([], frames) && Heads(frames)[|frames| - 1] == Top(frames)
  {
  }

  /** The children of a well-formed node make a well-formed first frame. */
  lemma {:induction false} FirstFrame(n: Node, at: Path, meaning: Meaning)
    requires WellFormed(n) && Honest(n, meaning) && n.isDir
    ensures var frames := if n.children == [] then [] else [Sorted(n.children)];
            && StackOk(frames, meaning) && (forall i :: 0 <= i < |frames| ==> frames[i] != [])
            && Ahead(at, frames) == Under(at, Files(n))
  {
    ChildFrame(n, meaning);
    if n.children != [] {
      FrameAhead(at, [], Sorted(n.children));
      assert [] + [Sorted(n.children)] == [Sorted(n.children)];
      assert Heads([]) == [] && Names([]) == [] && at + [] == at;
      SortedFacts(n.children);
    }
  }

  lemma {:induction false} ChildFrame(n: Node, meaning: Meaning)
    requires WellFormed(n) && Honest(n, meaning)
    ensures n.children != [] ==> FrameOk(Sorted(n.children), meaning)
  {
    SortedFacts(n.children);
    var kids := Sorted(n.children);
    forall i | 0 <= i < |kids| ensures WellFormed(kids[i]) && Honest(kids[i], meaning) {
      assert kids[i] in n.children;
      var j :| 0 <= j < |n.children| && n.children[j] == kids[i];
    }
  }

  // --- doubleiter.go ------------------------------------------------------------------------------

  datatype Remaining = NoMoreNoders | OnlyToRemains | OnlyFromRemains | BothHaveNodes

  /** `doubleIter`: two iterators and the paths they stand on. */
  class DoubleIter {
    const from: Iter
    const to: Iter
    var fromCurrent: Option<seq<Node>>
    var toCurrent: Option<seq<Node>>

    predicate Valid()
      reads this, from, to
    {
      && from != to && from.base == [] && to.base == [] && from.Valid() && to.Valid()
      && (from.hasStarted || from.Frames() == []) && (to.hasStarted || to.Frames() == [])
      && fromCurrent == from.CurrentPath() && toCurrent == to.CurrentPath()
    }

    function FromFrames(): (s: Stack)
      requires from.Valid()
      reads this, from
      ensures forall i :: 0 <= i < |s| ==> s[i] != []
    {
      from.Frames()
    }

    function ToFrames(): (s: Stack)
      requires to.Valid()
      reads this, to
      ensures forall i :: 0 <= i < |s| ==> s[i] != []
    {
      to.Frames()
    }

    constructor (fromTree: Node, toTree: Node)
      ensures Valid() && fresh(this) && fresh(from) && fresh(to)
      ensures FromFrames() == if fromTree.children == [] then [] else [Sorted(fromTree.children)]
      ensures ToFrames() == if toTree.children == [] then [] else [Sorted(toTree.children)]
    {
      from := new Iter(fromTree.children, []);
      to := new Iter(toTree.children, []);
      new;
      fromCurrent := from.Advance(false);
      toCurrent := to.Advance(false);
    }

    lemma CurrentHeads()
      requires Valid()
      ensures FromFrames() != [] ==> fromCurrent == Some(Heads(FromFrames()))
      ensures ToFrames() != [] ==> toCurrent == Some(Heads(ToFrames()))
      ensures FromFrames() == [] <==> fromCurrent.None?
      ensures ToFrames() == [] <==> toCurrent.None?
    {
      assert [] + Heads(FromFrames()) == Heads(FromFrames());
      assert [] + Heads(ToFrames()) == Heads(ToFrames());
    }

    method NextFrom()
      requires Valid()
      modifies this`fromCurrent, from
      ensures Valid() && FromFrames() == Drop(old(FromFrames()))
    {
      fromCurrent := from.Advance(false);
    }

    method NextTo()
      requires Valid()
      modifies this`toCurrent, to
      ensures Valid() && ToFrames() == Drop(old(ToFrames()))
    {
      toCurrent := to.Advance(false);
    }

    method NextBoth()
      requires Valid()
      modifies this, from, to
      ensures Valid() && FromFrames() == Drop(old(FromFrames())) && ToFrames() == Drop(old(ToFrames()))
    {
      NextFrom();
      NextTo();
    }

    method StepBoth()
      requires Valid()
      modifies this, from, to
      ensures Valid()
      ensures FromFrames() == Moved(true, old(FromFrames()), true) && ToFrames() == Moved(true, old(ToFrames()), true)
    {
      fromCurrent := from.Advance(true);
      toCurrent := to.Advance(true);
    }

    function WhatRemains(): Remaining
      reads this
    {
      if fromCurrent.None? && toCurrent.None? then NoMoreNoders
      else if fromCurrent.None? then OnlyToRemains
      else if toCurrent.None? then OnlyFromRemains
      else BothHaveNodes
    }
  }

  // --- difftree.go -------------------------------------------------------------------------------------

  /** Whether some child of the root has no name; adding or deleting it is an error. */
  ghost predicate NamelessChild(n: Node) {
    exists i :: 0 <= i < |n.children| && n.children[i].name == ""
  }

  ghost predicate NamedAtTop(frames: Stack) {
    frames != [] ==> forall i :: 0 <= i < |frames[0]| ==> frames[0][i].name != ""
  }

  lemma {:induction false} NamedAfterDrop(frames: Stack)
    requires (forall i :: 0 <= i < |frames| ==> frames[i] != []) && NamedAtTop(frames)
    ensures NamedAtTop(Drop(frames))
  {
    if frames != [] {
      var n := |frames| - 1;
      if |frames[n]| == 1 {
        NamedAfterDrop(frames[..n]);
      }
    }
  }

  lemma NamedPathString(frames: Stack)
    requires frames != [] && (forall i :: 0 <= i < |frames| ==> frames[i] != []) && NamedAtTop(frames)
    ensures PathString(At([], frames)) != ""
  {
    assert At([], frames)[0] == frames[0][0].name;
  }

  /** Comparing two paths component by component, as `noder.Path.Compare` does. */
  method Compare(p: Path, q: Path) returns (r: int)
    ensures r == 0 <==> p == q
    ensures r == -1 <==> PathBelow(p, q)
    ensures r == 1 <==> PathBelow(q, p)
    ensures r == -1 || r == 0 || r == 1
  {
    var i := 0;
    PathBelowIrreflexive(p);
    while true
      invariant 0 <= i <= |p| && i <= |q| && p[..i] == q[..i]
      invariant PathBelow(p, q) <==> PathBelow(p[i..], q[i..])
      invariant PathBelow(q, p) <==> PathBelow(q[i..], p[i..])
      decreases |p| - i
    {
      if |q| == |p| && i == |p| {
        assert p == p[..i] == q[..i] == q;
        return 0;
      }
      if i == |q| {
        return 1;
      }
      if i == |p| {
        return -1;
      }
      BelowTotal(p[i], q[i]);
      BelowIrreflexive(p[i]);
      if p[i] != q[i] {
        if Below(p[i], q[i]) && Below(q[i], p[i]) {
          BelowTransitive(p[i], q[i], p[i]);
        }
        return if Below(p[i], q[i]) then -1 else 1;
      }
      assert p[i..][1..] == p[i + 1..] && q[i..][1..] == q[i + 1..];
      assert p[..i + 1] == p[..i] + [p[i]] && q[..i + 1] == q[..i] + [q[i]];
      i := i + 1;
    }
  }

  ghost predicate Walk(ii: DoubleIter, a: set<Entry>, b: set<Entry>, changes: seq<Change>, meaning: Meaning)
    reads ii, ii.from, ii.to
  {
    ii.Valid() && Walking(a, b, changes, ii.FromFrames(), ii.ToFrames(), meaning)
  }

  ghost predicate Named(ii: DoubleIter)
    reads ii, ii.from, ii.to
  {
    ii.Valid() && NamedAtTop(ii.FromFrames()) && NamedAtTop(ii.ToFrames())
  }

  ghost function Work(ii: DoubleIter): nat
    requires ii.Valid()
    reads ii, ii.from, ii.to
  {
    Load(ii.FromFrames()) + Load(ii.ToFrames())
  }

  /** What one step of the main loop guarantees. */
  twostate predicate Progress(ii: DoubleIter, a: set<Entry>, b: set<Entry>, ok: bool, changes: seq<Change>, meaning: Meaning)
    reads ii, ii.from, ii.to
  {
    && (!ok ==> !old(Named(ii)))
    && (ok ==> Walk(ii, a, b, changes, meaning) && (old(Named(ii)) ==> Named(ii)))
    && (ok && old(ii.Valid()) ==> Work(ii) < old(Work(ii)))
  }

  /** `AddRecursiveDelete` or `AddRecursiveInsert` of the node an iterator stands on. */
  method AddCurrent(changes: seq<Change>, path: seq<Node>, insert: bool, ghost frames: Stack, ghost meaning: Meaning)
    returns (ok: bool, changes': seq<Change>, ghost added: seq<Change>)
    requires StackOk(frames, meaning) && frames != [] && (forall i :: 0 <= i < |frames| ==> frames[i] != [])
    requires path == Heads(frames)
    ensures !ok ==> !NamedAtTop(frames)
    ensures ok ==> changes' == changes + added
    ensures ok ==> if insert then Lists(added, {}, Here([], frames)) else Lists(added, Here([], frames), {})
  {
    TopOk(frames, meaning);
    assert [] + Heads(frames) == Heads(frames) && Names([]) == [];
    PathAt([], frames);
    ok, changes', added := AddRecursive(changes, path, insert, meaning);
    if ok {
      MakesLists(added, Here([], frames), insert);
    } else if NamedAtTop(frames) {
      NamedPathString(frames);
    }
  }

  method DeleteFrom(ghost a: set<Entry>, ghost b: set<Entry>, changes: seq<Change>, ii: DoubleIter, ghost meaning: Meaning)
    returns (ok: bool, changes': seq<Change>)
    requires Walk(ii, a, b, changes, meaning) && ii.fromCurrent.Some?
    requires ii.ToFrames() != [] ==> PathBelow(At([], ii.FromFrames()), At([], ii.ToFrames()))
    modifies ii, ii.from, ii.to
    ensures Progress(ii, a, b, ok, changes', meaning)
  {
    hide StackOk, Found, Lists, Here, At, PathBelow, InStep, Drop, Load, Ahead, NamedAtTop;
    ii.CurrentHeads();
    ghost var sf, st := ii.FromFrames(), ii.ToFrames();
    ghost var added;
    ok, changes', added := AddCurrent(changes, ii.fromCurrent.value, false, sf, meaning);
    if ok {
      DeleteStep(a, b, changes, sf, st, meaning, added);
      if Named(ii) {
        NamedAfterDrop(sf);
      }
      ii.NextFrom();
    }
  }

  method InsertTo(ghost a: set<Entry>, ghost b: set<Entry>, changes: seq<Change>, ii: DoubleIter, ghost meaning: Meaning)
    returns (ok: bool, changes': seq<Change>)
    requires Walk(ii, a, b, changes, meaning) && ii.toCurrent.Some?
    requires ii.FromFrames() != [] ==> PathBelow(At([], ii.ToFrames()), At([], ii.FromFrames()))
    modifies ii, ii.from, ii.to
    ensures Progress(ii, a, b, ok, changes', meaning)
  {
    hide StackOk, Found, Lists, Here, At, PathBelow, InStep, Drop, Load, Ahead, NamedAtTop;
    ii.CurrentHeads();
    ghost var sf, st := ii.FromFrames(), ii.ToFrames();
    ghost var added;
    ok, changes', added := AddCurrent(changes, ii.toCurrent.value, true, st, meaning);
    if ok {
      InsertStep(a, b, changes, sf, st, meaning, added);
      if Named(ii) {
        NamedAfterDrop(st);
      }
      ii.NextTo();
    }
  }

  /** Both nodes have been dealt with by `added`: go on behind them. */
  method PassBoth(ghost a: set<Entry>, ghost b: set<Entry>, ghost changes: seq<Change>, ghost added: seq<Change>,
                  ii: DoubleIter, ghost meaning: Meaning)
    requires Walk(ii, a, b, changes, meaning) && ii.FromFrames() != [] && ii.ToFrames() != []
    requires At([], ii.FromFrames()) == At([], ii.ToFrames())
    requires Lists(added, Here([], ii.FromFrames()), Here([], ii.ToFrames()))
    modifies ii, ii.from, ii.to
    ensures Progress(ii, a, b, true, changes + added, meaning)
  {
    hide StackOk, Found, Lists, Here, At, PathBelow, InStep, Drop, Load, Ahead, NamedAtTop;
    ghost var sf, st := ii.FromFrames(), ii.ToFrames();
    BothStep(a, b, changes, sf, st, meaning, added);
    if Named(ii) {
      NamedAfterDrop(sf);
      NamedAfterDrop(st);
    }
    ii.NextBoth();
  }

  /** The two nodes the iterators stand on when both have one, and the path they share. */
  ghost predicate SamePlace(ii: DoubleIter, from: Node, to: Node, meaning: Meaning)
    reads ii, ii.from, ii.to
  {
    && ii.Valid() && ii.FromFrames() != [] && ii.ToFrames() != []
    && StackOk(ii.FromFrames(), meaning) && StackOk(ii.ToFrames(), meaning)
    && At([], ii.FromFrames()) == At([], ii.ToFrames())
    && from == Top(ii.FromFrames()) && to == Top(ii.ToFrames())
  }

  /** A file here and a directory there: all of one goes, all of the other comes. */
  method ReplaceBoth(changes: seq<Change>, ii: DoubleIter, ghost from: Node, ghost to: Node, ghost meaning: Meaning)
    returns (ok: bool, changes': seq<Change>, ghost added: seq<Change>)
    requires SamePlace(ii, from, to, meaning) && from.isDir != to.isDir
    ensures !ok ==> !Named(ii)
    ensures ok ==> changes' == changes + added && Lists(added, Here([], ii.FromFrames()), Here([], ii.ToFrames()))
  {
    hide StackOk, Lists, Here, At, NamedAtTop, Heads;
    ii.CurrentHeads();
    ghost var sf, st := ii.FromFrames(), ii.ToFrames();
    var changes1;
    ghost var deleted, inserted;
    ok, changes1, deleted := AddCurrent(changes, ii.fromCurrent.value, false, sf, meaning);
    if !ok {
      return false, changes, [];
    }
    ok, changes', inserted := AddCurrent(changes1, ii.toCurrent.value, true, st, meaning);
    if !ok {
      return false, changes, [];
    }
    FileAndDirApart(sf, st);
    ListsBoth(Here([], sf), Here([], st), deleted, inserted);
    added := deleted + inserted;
    Regroup(changes, deleted, inserted);
  }

  lemma Regroup(a: seq<Change>, b: seq<Change>, c: seq<Change>)
    ensures (a + b) + c == a + (b + c)
  {
  }

  /** One of two directories is empty: all of the other one is deleted or inserted. */
  method AddOtherSide(changes: seq<Change>, ii: DoubleIter, insert: bool, ghost from: Node, ghost to: Node,
                      ghost meaning: Meaning)
    returns (ok: bool, changes': seq<Change>, ghost added: seq<Change>)
    requires SamePlace(ii, from, to, meaning) && from.isDir && to.isDir
    requires if insert then from.children == [] else to.children == []
    ensures !ok ==> !Named(ii)
    ensures ok ==> changes' == changes + added && Lists(added, Here([], ii.FromFrames()), Here([], ii.ToFrames()))
  {
    ii.CurrentHeads();
    ghost var sf, st := ii.FromFrames(), ii.ToFrames();
    if insert {
      EmptyDirHere(sf);
      ok, changes', added := AddCurrent(changes, ii.toCurrent.value, true, st, meaning);
    } else {
      EmptyDirHere(st);
      ok, changes', added := AddCurrent(changes, ii.fromCurrent.value, false, sf, meaning);
    }
  }

  /** `diffDirs`. */
  method DiffDirs(ghost a: set<Entry>, ghost b: set<Entry>, changes: seq<Change>, ii: DoubleIter,
                  from: Node, to: Node, ghost meaning: Meaning)
    returns (ok: bool, changes': seq<Change>)
    requires Walk(ii, a, b, changes, meaning) && SamePlace(ii, from, to, meaning) && from.isDir && to.isDir
    modifies ii, ii.from, ii.to
    ensures Progress(ii, a, b, ok, changes', meaning)
  {
    hide StackOk, Found, Lists, Here, At, PathBelow, InStep, Drop, Load, Ahead, NamedAtTop;
    ghost var added;
    if from.children == [] {
      ok, changes', added := AddOtherSide(changes, ii, true, from, to, meaning);
      if ok {
        PassBoth(a, b, changes, added, ii, meaning);
      }
    } else if to.children == [] {
      ok, changes', added := AddOtherSide(changes, ii, false, from, to, meaning);
      if ok {
        PassBoth(a, b, changes, added, ii, meaning);
      }
    } else {
      EnterBoth(a, b, changes, ii, from, to, meaning);
      ok, changes' := true, changes;
    }
  }

  method EnterBoth(ghost a: set<Entry>, ghost b: set<Entry>, ghost changes: seq<Change>, ii: DoubleIter,
                   ghost from: Node, ghost to: Node, ghost meaning: Meaning)
    requires Walk(ii, a, b, changes, meaning) && SamePlace(ii, from, to, meaning) && from.isDir && to.isDir
    requires from.children != [] && to.children != []
    modifies ii, ii.from, ii.to
    ensures Progress(ii, a, b, true, changes, meaning)
  {
    hide StackOk, Found, Here, At, PathBelow, InStep, Load, Ahead;
    ghost var sf, st := ii.FromFrames(), ii.ToFrames();
    DescendStep(a, b, changes, sf, st, meaning);
    ii.StepBoth();
  }

  /** `diffNodesSameName`. */
  method DiffNodesSameName(ghost a: set<Entry>, ghost b: set<Entry>, changes: seq<Change>, ii: DoubleIter,
                           from: Node, to: Node, names: Path, ghost meaning: Meaning)
    returns (ok: bool, changes': seq<Change>)
    requires Walk(ii, a, b, changes, meaning) && SamePlace(ii, from, to, meaning) && names == At([], ii.FromFrames())
    modifies ii, ii.from, ii.to
    ensures Progress(ii, a, b, ok, changes', meaning)
  {
    hide StackOk, Found, Lists, Here, At, PathBelow, InStep, Drop, Load, Ahead, NamedAtTop;
    if from.hash == to.hash {
      SameHashNoChange(ii.FromFrames(), ii.ToFrames(), meaning);
      PassBoth(a, b, changes, [], ii, meaning);
      assert changes + [] == changes;
      ok, changes' := true, changes;
    } else if !from.isDir && !to.isDir {
      var change := NewModify(Entry(names, from.hash), Entry(names, to.hash));
      TwoFilesModify(ii.FromFrames(), ii.ToFrames());
      PassBoth(a, b, changes, [change], ii, meaning);
      ok, changes' := true, changes + [change];
    } else if from.isDir != to.isDir {
      ghost var added;
      ok, changes', added := ReplaceBoth(changes, ii, from, to, meaning);
      if ok {
        PassBoth(a, b, changes, added, ii, meaning);
      }
    } else {
      ok, changes' := DiffDirs(a, b, changes, ii, from, to, meaning);
    }
  }

  /** `diffNodes`. */
  method DiffNodes(ghost a: set<Entry>, ghost b: set<Entry>, changes: seq<Change>, ii: DoubleIter, ghost meaning: Meaning)
    returns (ok: bool, changes': seq<Change>)
    requires Walk(ii, a, b, changes, meaning) && ii.fromCurrent.Some? && ii.toCurrent.Some?
    modifies ii, ii.from, ii.to
    ensures Progress(ii, a, b, ok, changes', meaning)
  {
    hide StackOk, Found, At, PathBelow, InStep, Drop, Load, Ahead, NamedAtTop, Names, Heads, Named;
    var from, to := ii.fromCurrent.value, ii.toCurrent.value;
    ghost var sf, st := ii.FromFrames(), ii.ToFrames();
    ii.CurrentHeads();
    HeadsAt(sf);
    HeadsAt(st);
    var cmp := Compare(Names(from), Names(to));
    if cmp == -1 {
      ok, changes' := DeleteFrom(a, b, changes, ii, meaning);
    } else if cmp == 1 {
      ok, changes' := InsertTo(a, b, changes, ii, meaning);
    } else {
      assert SamePlace(ii, from[|from| - 1], to[|to| - 1], meaning);
      ok, changes' := DiffNodesSameName(a, b, changes, ii, from[|from| - 1], to[|to| - 1], Names(from), meaning);
    }
  }

  /** The files of the trie below a root. */
  ghost function FilesOf(root: Node): set<Entry> {
    FilesIn(root.children)
  }

  lemma {:induction false} StartWalk(fromTree: Node, toTree: Node, sf: Stack, st: Stack, meaning: Meaning)
    requires WellFormed(fromTree) && WellFormed(toTree) && Honest(fromTree, meaning) && Honest(toTree, meaning)
    requires fromTree.isDir && toTree.isDir
    requires sf == (if fromTree.children == [] then [] else [Sorted(fromTree.children)])
    requires st == (if toTree.children == [] then [] else [Sorted(toTree.children)])
    ensures Walking(FilesOf(fromTree), FilesOf(toTree), [], sf, st, meaning)
  {
    hide WellFormed, Honest, Sorted, FilesIn, Under, StackOk, At, InStep;
    FirstFrame(fromTree, [], meaning);
    FirstFrame(toTree, [], meaning);
    UnderNothing(FilesOf(fromTree));
    UnderNothing(FilesOf(toTree));
    InStepStart(sf, st);
  }

  lemma InStepStart(sf: Stack, st: Stack)
    requires (forall i :: 0 <= i < |sf| ==> sf[i] != []) && (forall i :: 0 <= i < |st| ==> st[i] != [])
    requires |sf| <= 1 && |st| <= 1
    ensures InStep(At([], sf), At([], st))
  {
  }

  lemma StartNamed(root: Node)
    requires !NamelessChild(root)
    ensures NamedAtTop(if root.children == [] then [] else [Sorted(root.children)])
  {
    SortedFacts(root.children);
    var kids := Sorted(root.children);
    forall i | 0 <= i < |kids| ensures kids[i].name != "" {
      assert kids[i] in root.children;
    }
  }

  lemma UnderNothing(s: set<Entry>)
    ensures Under([], s) == s
  {
    assert forall e: Entry :: Entry([] + e.path, e.hash) == e by {
      forall e: Entry ensures Entry([] + e.path, e.hash) == e {
        assert [] + e.path == e.path;
      }
    }
    forall e | e in s ensures e in Under([], s) {
      UnderHas([], s, e);
    }
  }

  /** `DiffTree`: exactly the plain difference of the files, each change once, although
      subtrees with equal hashes are skipped.  It fails only for a child of a root that has
      no name. */
  method DiffTries(fromTree: Node, toTree: Node, ghost meaning: Meaning) returns (ok: bool, changes: seq<Change>)
    requires WellFormed(fromTree) && WellFormed(toTree) && fromTree.isDir && toTree.isDir
    requires Honest(fromTree, meaning) && Honest(toTree, meaning)
    ensures !NamelessChild(fromTree) && !NamelessChild(toTree) ==> ok
    ensures ok ==> NoRepeats(changes)
    ensures ok ==> forall c :: c in changes <==> IsChange(FilesOf(fromTree), FilesOf(toTree), c)
    ensures ok ==> Apply(FilesOf(fromTree), changes) == FilesOf(toTree)
  {
    hide Sorted, Walking, Functional, Apply;
    ghost var a, b := FilesOf(fromTree), FilesOf(toTree);
    TrieFunctional(fromTree);
    TrieFunctional(toTree);
    var ii := new DoubleIter(fromTree, toTree);
    changes, ok := [], true;
    StartWalk(fromTree, toTree, ii.FromFrames(), ii.ToFrames(), meaning);
    ghost var named := !NamelessChild(fromTree) && !NamelessChild(toTree);
    if named {
      StartNamed(fromTree);
      StartNamed(toTree);
    }
    hide StackOk, Found, At, PathBelow, InStep, Drop, Load, NamedAtTop, WellFormed, Honest, FilesOf, NamelessChild;
    while true
      invariant fresh(ii) && fresh(ii.from) && fresh(ii.to)
      invariant Walk(ii, a, b, changes, meaning) && (named ==> Named(ii))
      decreases Work(ii)
    {
      match ii.WhatRemains() {
        case NoMoreNoders =>
          ii.CurrentHeads();
          AllFound(a, b, changes, meaning);
          ApplyDifference(a, b, changes);
          return;
        case OnlyFromRemains =>
          ok, changes := DeleteFrom(a, b, changes, ii, meaning);
        case OnlyToRemains =>
          ok, changes := InsertTo(a, b, changes, ii, meaning);
        case BothHaveNodes =>
          ok, changes := DiffNodes(a, b, changes, ii, meaning);
      }
      if !ok {
        return;
      }
    }
  }

  lemma AllFound(a: set<Entry>, b: set<Entry>, changes: seq<Change>, meaning: Meaning)
    requires Walking(a, b, changes, [], [], meaning)
    ensures NoRepeats(changes) && forall c :: c in changes <==> IsChange(a, b, c)
  {
    assert forall c :: !IsChange({}, {}, c);
  }

  /** What a set of files becomes when changes are applied to it. */
  ghost function Apply(files: set<Entry>, changes: seq<Change>): set<Entry> {
    (set e | e in files && forall c :: c in changes ==> c.from != Some(e))
    + (set c | c in changes && c.to.Some? :: c.to.value)
  }

  /** Applying the difference to the old files gives the new files. */
  lemma ApplyDifference(a: set<Entry>, b: set<Entry>, changes: seq<Change>)
    requires Functional(a) && Functional(b)
    requires forall c :: c in changes <==> IsChange(a, b, c)
    ensures Apply(a, changes) == b
  {
    forall e | e in b ensures e in Apply(a, changes) {
      if e in a {
        forall c | c in changes ensures c.from != Some(e) {
          assert IsChange(a, b, c);
        }
      } else if Has(a, e.path) {
        var h :| Entry(e.path, h) in a;
        assert NewModify(Entry(e.path, h), e) in changes;
      } else {
        assert NewInsert(e) in changes;
      }
    }
    forall e | e in Apply(a, changes) ensures e in b {
      if e in a && forall c :: c in changes ==> c.from != Some(e) {
        assert NewDelete(e) !in changes;
        assert Has(b, e.path);
        var h :| Entry(e.path, h) in b;
        assert NewModify(e, Entry(e.path, h)) !in changes;
      } else {
        var c :| c in changes && c.to == Some(e);
        assert IsChange(a, b, c);
      }
    }
  }

  /** A well-formed trie has one hash for every path. */
  lemma {:induction false} TrieFunctional(root: Node)
    requires WellFormed(root)
    ensures Functional(FilesOf(root))
  {
    FilesInFunctional(root.children);
  }
}
