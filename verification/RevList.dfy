/** `git rev-list --objects` as go-git does it: everything reachable from some objects but
    not from others, found by walks that share one growing set of objects already seen. */
module RevList {
  import opened Graph
  import opened ObjectGraph
  import opened CommitWalkers

  const MAX_TREE_DEPTH := 1024

  // --- Walking the entries of a tree ----------------------------------------------------

  /** One `Next` of the tree walker.  A subtree that cannot be loaded ends the walk like
      the last entry does. */
  datatype TreeStep = Entry(e: TreeEntry) | Eof | TooDeep

  /** A tree and how many of its entries have been taken. */
  datatype Frame = Frame(tree: Hash, pos: nat)

  ghost predicate FrameOk(s: Store, f: Frame) {
    IsTree(s, f.tree) && f.pos <= |s[f.tree].entries|
  }

  ghost predicate FramesOk(s: Store, stack: seq<Frame>) {
    forall i :: 0 <= i < |stack| ==> FrameOk(s, stack[i])
  }

  ghost function LeftIn(s: Store, f: Frame): set<Hash>
    requires FrameOk(s, f)
  {
    set h | h in Hashes(s[f.tree].entries[f.pos..], false)
  }

  /** The objects in entries not taken yet. */
  ghost function Pending(s: Store, stack: seq<Frame>): set<Hash>
    requires FramesOk(s, stack)
  {
    if stack == [] then {} else Pending(s, stack[..|stack| - 1]) + LeftIn(s, stack[|stack| - 1])
  }

  ghost function Size(s: Store, stack: seq<Frame>): nat
    requires FramesOk(s, stack)
  {
    if stack == [] then 0
    else
      var f := stack[|stack| - 1];
      Size(s, stack[..|stack| - 1]) + (|s[f.tree].entries| - f.pos) + 1
  }

  /** The stacked trees lead from `root` down. */
  ghost predicate Chain(s: Store, root: Hash, stack: seq<Frame>) {
    && (stack != [] ==> stack[0].tree == root)
    && forall i :: 0 < i < |stack| ==> Edge(LinkGraph(s, false), stack[i - 1].tree, stack[i].tree)
  }

  lemma {:induction false} PushFrame(s: Store, stack: seq<Frame>, f: Frame)
    requires FramesOk(s, stack) && FrameOk(s, f)
    ensures FramesOk(s, stack + [f]) && Pending(s, stack + [f]) == Pending(s, stack) + LeftIn(s, f)
    ensures Size(s, stack + [f]) == Size(s, stack) + (|s[f.tree].entries| - f.pos) + 1
  {
    assert (stack + [f])[..|stack|] == stack;
  }

  /** Taking the next entry of a frame. */
  lemma TakeEntry(s: Store, f: Frame)
    requires FrameOk(s, f) && f.pos < |s[f.tree].entries|
    ensures var e := s[f.tree].entries[f.pos];
            LeftIn(s, f) == LeftIn(s, f.(pos := f.pos + 1)) + if e.mode == SUBMODULE then {} else {e.hash}
  {
    var entries := s[f.tree].entries;
    assert entries[f.pos..] == [entries[f.pos]] + entries[f.pos + 1..];
  }

  /** All entries of a fresh frame are the links of its tree. */
  lemma FreshFrame(s: Store, t: Hash)
    requires IsTree(s, t)
    ensures FrameOk(s, Frame(t, 0)) && forall l :: l in Links(s[t], false) ==> l in LeftIn(s, Frame(t, 0))
  {
    assert s[t].entries[0..] == s[t].entries;
  }

  /** Every stacked tree is reached from the root by as many links as there are below it. */
  lemma ChainPath(s: Store, root: Hash, stack: seq<Frame>, k: nat) returns (p: seq<Hash>)
    requires Chain(s, root, stack) && k < |stack|
    ensures PathFromTo(LinkGraph(s, false), p, root, stack[k].tree) && |p| == k + 1
  {
    p := seq(k + 1, i requires 0 <= i < |stack| => stack[i].tree);
    forall i | 0 <= i < |p| - 1 ensures Edge(LinkGraph(s, false), p[i], p[i + 1]) {
      assert Edge(LinkGraph(s, false), stack[i + 1 - 1].tree, stack[i + 1].tree);
    }
  }

  /** A tree reached from `root` has a subtree that is missing or no tree. */
  ghost predicate BrokenBelow(s: Store, root: Hash) {
    exists t, i :: IsTree(s, t) && Reaches(LinkGraph(s, false), root, t) && BadEntry(s, t, i)
  }

  ghost predicate BadEntry(s: Store, t: Hash, i: int)
    requires IsTree(s, t)
  {
    0 <= i < |s[t].entries| && s[t].entries[i].mode == DIR && !IsTree(s, s[t].entries[i].hash)
  }

  /** Trees are nested deeper than the walker follows. */
  ghost predicate NestedTooDeep(s: Store, root: Hash) {
    exists p :: IsPath(LinkGraph(s, false), p) && p[0] == root && |p| > MAX_TREE_DEPTH + 1
  }

  ghost predicate Standing(s: Store, root: Hash, stack: seq<Frame>) {
    FramesOk(s, stack) && Chain(s, root, stack)
  }

  /** From `stack` the walk moved on to `stack'`, leaving out only what has been seen. */
  ghost predicate Passed(s: Store, seen: set<Hash>, stack: seq<Frame>, stack': seq<Frame>) {
    && FramesOk(s, stack) && FramesOk(s, stack') && Size(s, stack') <= Size(s, stack)
    && forall h :: h in Pending(s, stack) ==> h in Pending(s, stack') || h in seen
  }

  /** From `stack` the walk took the entry `e` and moved on to `stack'`, which goes on below
      `e` if that is a tree. */
  ghost predicate Took(s: Store, root: Hash, seen: set<Hash>, stack: seq<Frame>, e: TreeEntry, stack': seq<Frame>) {
    && FramesOk(s, stack) && FramesOk(s, stack')
    && e.hash !in seen && EntryOk(s, e)
    && (e.mode != SUBMODULE ==> Reaches(LinkGraph(s, false), root, e.hash))
    && (forall h :: h in Pending(s, stack) ==>
          h in Pending(s, stack') || h in seen || (e.mode != SUBMODULE && h == e.hash))
    && (e.mode == DIR ==> IsTree(s, e.hash))
    && (e.mode == DIR ==> forall l :: l in Links(s[e.hash], false) ==> l in Pending(s, stack'))
    && (e.mode != DIR ==> Size(s, stack') < Size(s, stack))
  }

  /** Moving the innermost frame on by one entry. */
  function Advanced(stack: seq<Frame>): seq<Frame>
    requires stack != []
  {
    var f := stack[|stack| - 1];
    stack[..|stack| - 1] + [Frame(f.tree, f.pos + 1)]
  }

  ghost predicate CanAdvance(s: Store, stack: seq<Frame>) {
    && stack != [] && FramesOk(s, stack)
    && stack[|stack| - 1].pos < |s[stack[|stack| - 1].tree].entries|
  }

  function NextEntry(s: Store, stack: seq<Frame>): TreeEntry
    requires CanAdvance(s, stack)
  {
    var f := stack[|stack| - 1];
    s[f.tree].entries[f.pos]
  }

  lemma {:induction false} AdvanceStep(s: Store, root: Hash, stack: seq<Frame>)
    requires CanAdvance(s, stack) && Chain(s, root, stack)
    ensures var e := NextEntry(s, stack);
            && Standing(s, root, Advanced(stack))
            && Pending(s, stack) == Pending(s, Advanced(stack)) + (if e.mode == SUBMODULE then {} else {e.hash})
            && Size(s, Advanced(stack)) == Size(s, stack) - 1
  {
    hide LeftIn;
    var f := stack[|stack| - 1];
    TakeEntry(s, f);
    PushFrame(s, stack[..|stack| - 1], Frame(f.tree, f.pos + 1));
    var stack' := Advanced(stack);
    assert forall i :: 0 <= i < |stack| ==> stack'[i].tree == stack[i].tree;
  }

  lemma PopStep(s: Store, root: Hash, stack: seq<Frame>)
    requires Standing(s, root, stack) && stack != [] && !CanAdvance(s, stack)
    ensures var stack' := stack[..|stack| - 1];
            Standing(s, root, stack') && Pending(s, stack') == Pending(s, stack) && Size(s, stack') < Size(s, stack)
  {
  }

  /** The innermost tree is reached from the root. */
  lemma TopReached(s: Store, root: Hash, stack: seq<Frame>)
    requires Standing(s, root, stack) && stack != []
    ensures Reaches(LinkGraph(s, false), root, stack[|stack| - 1].tree)
    ensures |stack| > MAX_TREE_DEPTH + 1 ==> NestedTooDeep(s, root)
  {
    var p := ChainPath(s, root, stack, |stack| - 1);
  }

  /** The entry to be taken next is linked from the innermost tree. */
  lemma NextLinked(s: Store, root: Hash, stack: seq<Frame>)
    requires CanAdvance(s, stack) && Chain(s, root, stack) && NextEntry(s, stack).mode != SUBMODULE
    ensures Edge(LinkGraph(s, false), stack[|stack| - 1].tree, NextEntry(s, stack).hash)
    ensures Reaches(LinkGraph(s, false), root, NextEntry(s, stack).hash)
  {
    var f := stack[|stack| - 1];
    TopReached(s, root, stack);
    HashesHave(s[f.tree].entries, false, f.pos);
    ReachesLink(s, false, root, f.tree, NextEntry(s, stack).hash);
  }

  lemma {:induction false} DescendStep(s: Store, root: Hash, stack: seq<Frame>, t: Hash)
    requires Standing(s, root, stack) && stack != [] && IsTree(s, t)
    requires Edge(LinkGraph(s, false), stack[|stack| - 1].tree, t)
    ensures Standing(s, root, stack + [Frame(t, 0)])
    ensures forall h :: h in Pending(s, stack) || h in Links(s[t], false) ==> h in Pending(s, stack + [Frame(t, 0)])
  {
    hide LeftIn, Links;
    FreshFrame(s, t);
    PushFrame(s, stack, Frame(t, 0));
  }

  /** Where a walk stands once it has left finished trees and passed over what has been seen. */
  ghost function NextPlace(s: Store, seen: set<Hash>, stack: seq<Frame>): (r: seq<Frame>)
    requires FramesOk(s, stack)
    ensures FramesOk(s, r)
    ensures r == [] || |r| > MAX_TREE_DEPTH + 1 || (CanAdvance(s, r) && NextEntry(s, r).hash !in seen)
    decreases Size(s, stack)
  {
    if stack == [] || |stack| > MAX_TREE_DEPTH + 1 then stack
    else if !CanAdvance(s, stack) then NextPlace(s, seen, stack[..|stack| - 1])
    else if NextEntry(s, stack).hash in seen then
      AdvanceSize(s, stack);
      NextPlace(s, seen, Advanced(stack))
    else stack
  }

  /** In a tree the walk stands at the first entry that is not seen; with none left it goes on in the
      tree above, and below 1025 trees it does not go on at all. */
  lemma {:induction false} NextPlaceIs(s: Store, seen: set<Hash>, above: seq<Frame>, t: Hash, pos: nat, k: nat)
    requires FramesOk(s, above + [Frame(t, pos)]) && IsTree(s, t) && pos <= k <= |s[t].entries|
    requires forall i :: pos <= i < k ==> s[t].entries[i].hash in seen
    ensures FramesOk(s, above)
    ensures |above| >= 1025 ==> NextPlace(s, seen, above + [Frame(t, pos)]) == above + [Frame(t, pos)]
    ensures |above| < 1025 && k < |s[t].entries| && s[t].entries[k].hash !in seen ==>
              NextPlace(s, seen, above + [Frame(t, pos)]) == above + [Frame(t, k)]
    ensures |above| < 1025 && k == |s[t].entries| ==>
              NextPlace(s, seen, above + [Frame(t, pos)]) == NextPlace(s, seen, above)
    decreases k - pos
  {
    var stack := above + [Frame(t, pos)];
    assert stack[..|stack| - 1] == above;
    if pos < k && |above| < 1025 {
      AdvanceSize(s, stack);
      assert Advanced(stack) == above + [Frame(t, pos + 1)];
      NextPlaceIs(s, seen, above, t, pos + 1, k);
    }
  }

  lemma {:induction false} AdvanceSize(s: Store, stack: seq<Frame>)
    requires CanAdvance(s, stack)
    ensures FramesOk(s, Advanced(stack)) && Size(s, Advanced(stack)) < Size(s, stack)
  {
    assert Advanced(stack)[..|stack| - 1] == stack[..|stack| - 1];
  }

  /** A directory whose tree is missing. */
  ghost predicate Unloadable(s: Store, e: TreeEntry) {
    e.mode == DIR && !IsTree(s, e.hash)
  }

  class TreeWalker {
    const store: Store
    const root: Hash
    var stack: seq<Frame>

    ghost predicate Valid()
      reads this
    {
      Standing(store, root, stack)
    }

    constructor (store: Store, root: Hash)
      requires IsTree(store, root)
      ensures Valid() && this.store == store && this.root == root && stack == [Frame(root, 0)]
    {
      this.store, this.root, stack := store, root, [Frame(root, 0)];
    }

    /** The next entry that leads to nothing seen.  The walk goes on below a tree. */
    method Next(seen: set<Hash>) returns (r: TreeStep)
      requires Valid() && Sound(store)
      modifies this
      ensures Valid()
      ensures r.TooDeep? ==> NestedTooDeep(store, root)
      ensures r.Eof? ==> Passed(store, seen, old(stack), []) || BrokenBelow(store, root)
      ensures r.Entry? ==> Took(store, root, seen, old(stack), r.e, stack)
      ensures var at := NextPlace(store, seen, old(stack));
              if at == [] then r.Eof?
              else if |at| > MAX_TREE_DEPTH + 1 then r.TooDeep?
              else if Unloadable(store, NextEntry(store, at)) then r.Eof?
              else r == Entry(NextEntry(store, at))
    {
      hide Pending, Size, Chain, Reaches, LinkGraph, NestedTooDeep, Links;
      while true
        invariant Valid() && Passed(store, seen, old(stack), stack)
        invariant NextPlace(store, seen, old(stack)) == NextPlace(store, seen, stack)
        decreases Size(store, stack)
      {
        var current := |stack| - 1;
        if current < 0 {
          return Eof;
        }
        TopReached(store, root, stack);
        if current > MAX_TREE_DEPTH {
          return TooDeep;
        }
        var f := stack[current];
        if f.pos >= |store[f.tree].entries| {
          PopStep(store, root, stack);
          stack := stack[..current];
          continue;
        }
        var e := store[f.tree].entries[f.pos];
        AdvanceStep(store, root, stack);
        ghost var before := stack;
        stack := Advanced(stack);
        if e.hash in seen {
          continue;
        }
        if e.mode != SUBMODULE {
          NextLinked(store, root, before);
        }
        if e.mode == DIR {
          if e.hash !in store || !store[e.hash].Tree? {
            assert BadEntry(store, f.tree, f.pos);
            return Eof;
          }
          DescendStep(store, root, stack, e.hash);
          stack := stack + [Frame(e.hash, 0)];
        }
        return Entry(e);
      }
    }
  }

  /** The first entry of the tree `t` that leads to nothing seen is an unloadable directory. */
  ghost predicate StopsAtOnce(s: Store, seen: set<Hash>, t: Hash) {
    && IsTree(s, t)
    && var at := NextPlace(s, seen, [Frame(t, 0)]);
       at != [] && |at| <= MAX_TREE_DEPTH + 1 && Unloadable(s, NextEntry(s, at))
  }

  // --- What a walk has seen -------------------------------------------------------------

  /** Whatever was added to `before` has all its links in `after` or in `pending`. */
  ghost predicate ClosedUpTo(s: Store, before: set<Hash>, after: set<Hash>, pending: set<Hash>) {
    forall h, l :: h in after && h !in before && h in s && l in Links(s[h], false) ==> l in after || l in pending
  }

  /** All that was added is reached from `root`. */
  ghost predicate Added(s: Store, root: Hash, before: set<Hash>, after: set<Hash>) {
    before <= after && forall h :: h in after && h !in before ==> Reaches(LinkGraph(s, false), root, h)
  }

  ghost predicate NoCommitAdded(s: Store, before: set<Hash>, after: set<Hash>) {
    forall h :: h in after && h !in before ==> !IsCommit(s, h)
  }

  /** Every tree below `root` has its subtrees. */
  ghost predicate SubtreesPresent(s: Store, root: Hash) {
    !BrokenBelow(s, root)
  }

  /** In the middle of walking the tree `root`. */
  ghost predicate WalkingTree(s: Store, root: Hash, before: set<Hash>, seen: set<Hash>, stack: seq<Frame>) {
    && FramesOk(s, stack) && root in seen
    && Added(s, root, before, seen) && NoCommitAdded(s, before, seen)
    && ClosedUpTo(s, before, seen, Pending(s, stack))
  }

  lemma StartTree(s: Store, root: Hash, before: set<Hash>)
    requires IsTree(s, root)
    ensures WalkingTree(s, root, before, before + {root}, [Frame(root, 0)])
  {
    hide LeftIn, Links;
    FreshFrame(s, root);
    PushFrame(s, [], Frame(root, 0));
    assert [] + [Frame(root, 0)] == [Frame(root, 0)];
    ReachesSelf(LinkGraph(s, false), root);
  }

  /** Marking the entry just taken. */
  lemma MarkEntry(s: Store, root: Hash, before: set<Hash>, seen: set<Hash>, stack: seq<Frame>, e: TreeEntry,
                  stack': seq<Frame>)
    requires WalkingTree(s, root, before, seen, stack) && Took(s, root, seen, stack, e, stack')
    requires e.mode != SUBMODULE
    ensures WalkingTree(s, root, before, seen + {e.hash}, stack')
  {
    hide Pending, Reaches, LinkGraph, Size;
  }

  /** An entry for a submodule is not marked. */
  lemma LeaveSubmodule(s: Store, root: Hash, before: set<Hash>, seen: set<Hash>, stack: seq<Frame>, e: TreeEntry,
                       stack': seq<Frame>)
    requires WalkingTree(s, root, before, seen, stack) && Took(s, root, seen, stack, e, stack')
    requires e.mode == SUBMODULE
    ensures WalkingTree(s, root, before, seen, stack')
  {
    hide Pending, Reaches, LinkGraph, Size;
  }

  lemma EndTree(s: Store, root: Hash, before: set<Hash>, seen: set<Hash>, stack: seq<Frame>)
    requires WalkingTree(s, root, before, seen, stack) && Passed(s, seen, stack, [])
    ensures ClosedUpTo(s, before, seen, {})
  {
    assert Pending(s, []) == {};
    hide Pending, Links;
  }

  // --- Walking history --------------------------------------------------------------------

  /** Some tree reached from `root` is nested too deep. */
  ghost predicate DeepBelow(s: Store, root: Hash) {
    exists t :: Reaches(LinkGraph(s, false), root, t) && NestedTooDeep(s, t)
  }

  /** In the middle of walking the history of `c`: what has been seen since are the visited
      commits, each with its tree, and objects that are no commits. */
  ghost predicate WalkingHistory(s: Store, c: Hash, before: set<Hash>, seen: set<Hash>, visited: set<Hash>) {
    && Added(s, c, before, seen)
    && (forall h :: h in visited ==> h in seen && IsCommit(s, h) && h !in before && s[h].tree in seen)
    && (forall h :: h in seen && h !in before && IsCommit(s, h) ==> h in visited)
    && (SubtreesPresent(s, c) ==>
          forall h, l :: h in seen && h !in before && h in s && !s[h].Commit? && l in Links(s[h], false) ==> l in seen)
  }

  lemma SubtreesBelow(s: Store, a: Hash, b: Hash)
    requires SubtreesPresent(s, a) && Reaches(LinkGraph(s, false), a, b)
    ensures SubtreesPresent(s, b)
  {
    forall t | IsTree(s, t) && Reaches(LinkGraph(s, false), b, t) ensures Reaches(LinkGraph(s, false), a, t) {
      ReachesTrans(LinkGraph(s, false), a, b, t);
    }
  }

  lemma AddedFrom(s: Store, a: Hash, b: Hash, before: set<Hash>, after: set<Hash>)
    requires Added(s, b, before, after) && Reaches(LinkGraph(s, false), a, b)
    ensures Added(s, a, before, after)
  {
    forall h | h in after && h !in before ensures Reaches(LinkGraph(s, false), a, h) {
      ReachesTrans(LinkGraph(s, false), a, b, h);
    }
  }

  lemma StartHistory(s: Store, c: Hash, seen: set<Hash>)
    ensures WalkingHistory(s, c, seen, seen, {})
  {
  }

  /** Among commits not visited yet, what is seen is what was seen before. */
  lemma SeenBefore(s: Store, c: Hash, before: set<Hash>, seen: set<Hash>, visited: set<Hash>)
    requires WalkingHistory(s, c, before, seen, visited)
    ensures Added(s, c, before, seen)
    ensures forall h :: h in CommitGraph(s) && h !in visited ==> (h in seen <==> h in before)
  {
  }

  lemma VisitedReached(s: Store, c: Hash, limit: set<Hash>, visited: set<Hash>, pending: set<Hash>, d: Hash)
    requires Frontier(CommitGraph(s), c, limit, limit, visited, pending) && d in visited
    ensures Reaches(LinkGraph(s, false), c, d)
  {
    UpToReaches(CommitGraph(s), c, d, limit);
    CommitReaches(s, false, c, d);
  }

  /** One more commit with its tree. */
  lemma CommitStep(s: Store, c: Hash, before: set<Hash>, seen: set<Hash>, visited: set<Hash>, d: Hash, after: set<Hash>)
    requires WalkingHistory(s, c, before, seen, visited)
    requires IsCommit(s, d) && d !in seen && Reaches(LinkGraph(s, false), c, d)
    requires Added(s, s[d].tree, seen + {d}, after) && NoCommitAdded(s, seen + {d}, after) && s[d].tree in after
    requires SubtreesPresent(s, s[d].tree) ==> ClosedUpTo(s, seen + {d}, after, {})
    ensures WalkingHistory(s, c, before, after, visited + {d})
  {
    hide Reaches, LinkGraph, BrokenBelow;
    ReachesLink(s, false, c, d, s[d].tree);
    AddedFrom(s, c, s[d].tree, seen + {d}, after);
    if SubtreesPresent(s, c) {
      SubtreesBelow(s, c, s[d].tree);
    }
  }

  /** The commits visited are all that history leads to without crossing what was seen before. */
  lemma EndHistory(s: Store, c: Hash, before: set<Hash>, seen: set<Hash>, visited: set<Hash>)
    requires WalkingHistory(s, c, before, seen, visited) && IsCommit(s, c) && c !in before
    requires forall b :: b !in before ==> (b in visited <==> ReachesUpTo(CommitGraph(s), c, b, before))
    ensures c in seen
    ensures SubtreesPresent(s, c) ==> ClosedUpTo(s, before, seen, {})
  {
    hide ReachesUpTo, Reaches, LinkGraph, BrokenBelow;
    UpToSelf(CommitGraph(s), c, before);
    forall h, p | h in seen && h !in before && IsCommit(s, h) && p in s[h].parents ensures p in seen {
      assert Edge(CommitGraph(s), h, p);
      UpToExtend(CommitGraph(s), c, h, p, before);
    }
  }

  // --- Reachable or ignored ----------------------------------------------------------------

  ghost predicate Agree(s: Store, t: Store) {
    forall h :: h in s && h in t ==> s[h] == t[h]
  }

  lemma ReachesInUnion(s: Store, t: Store, a: Hash, b: Hash)
    requires Agree(s, t)
    ensures Reaches(LinkGraph(s, false), a, b) ==> Reaches(LinkGraph(s + t, false), a, b)
    ensures Reaches(LinkGraph(t, false), a, b) ==> Reaches(LinkGraph(s + t, false), a, b)
  {
    forall p | PathFromTo(LinkGraph(s, false), p, a, b) || PathFromTo(LinkGraph(t, false), p, a, b)
      ensures PathFromTo(LinkGraph(s + t, false), p, a, b)
    {
      forall i | 0 <= i < |p| - 1 ensures Edge(LinkGraph(s + t, false), p[i], p[i + 1]) {
        assert Edge(LinkGraph(s, false), p[i], p[i + 1]) || Edge(LinkGraph(t, false), p[i], p[i + 1]);
      }
    }
  }

  /** A walk from something seen that does not cross `before` stays among what is seen. */
  lemma {:induction false} StaysSeen(s: Store, before: set<Hash>, seen: set<Hash>, p: seq<Hash>, k: nat)
    requires ClosedUpTo(s, before, seen, {}) && IsPath(LinkGraph(s, false), p) && Avoids(p, before)
    requires p[0] in seen && k < |p|
    ensures p[k] in seen
  {
    if k > 0 {
      StaysSeen(s, before, seen, p, k - 1);
      assert Edge(LinkGraph(s, false), p[k - 1], p[k]);
    }
  }

  /** Whatever a seen object leads to is seen, or lies behind something seen before. */
  lemma SeenOrBehind(s: Store, before: set<Hash>, seen: set<Hash>, a: Hash, x: Hash)
    requires ClosedUpTo(s, before, seen, {}) && a in seen && Reaches(LinkGraph(s, false), a, x)
    ensures x in seen || exists m :: m in before && Reaches(LinkGraph(s, false), m, x)
  {
    var g := LinkGraph(s, false);
    var m := EntersLimit(g, a, x, before);
    var p :| PathFromTo(g, p, a, m) && Avoids(p, before);
    StaysSeen(s, before, seen, p, |p| - 1);
  }

  lemma CompleteHasSubtrees(s: Store, a: Hash)
    requires Sound(s) && CompleteFrom(LinkGraph(s, false), a)
    ensures SubtreesPresent(s, a)
  {
    var g := LinkGraph(s, false);
    forall t, i | IsTree(s, t) && Reaches(g, a, t) && 0 <= i < |s[t].entries| && s[t].entries[i].mode == DIR
      ensures !BadEntry(s, t, i)
    {
      HashesHave(s[t].entries, false, i);
      ReachesLink(s, false, a, t, s[t].entries[i].hash);
      assert EntryOk(s, s[t].entries[i]);
    }
  }

  lemma ClosedTrans(s: Store, a: set<Hash>, b: set<Hash>, c: set<Hash>)
    requires a <= b <= c && ClosedUpTo(s, a, b, {}) && ClosedUpTo(s, b, c, {})
    ensures ClosedUpTo(s, a, c, {})
  {
  }

  /** All ignored objects are there: what was found for them holds all they reach, in any
      store that agrees with theirs. */
  lemma IgnoresExact(s: Store, t: Store, ignore: set<Hash>, found: set<Hash>, x: Hash)
    requires Agree(s, t) && ignore <= found && ClosedUpTo(t, {}, found, {})
    requires forall h :: h in found ==> h in t
    requires ReachableFrom(s + t, false, ignore, x)
    ensures x in found
  {
    var g := LinkGraph(s + t, false);
    var r :| r in ignore && Reaches(g, r, x);
    forall a, b | a in found && Edge(g, a, b) ensures b in found {
      assert b in Links(t[a], false);
    }
    ClosedReaches(g, found, r, x);
  }

  datatype Outcome = Ok | NotFound | TreesTooDeep

  /** One call of `objects`. */
  class ObjectWalk {
    const store: Store
    const ignore: seq<Hash>
    var seen: set<Hash>
    var result: set<Hash>

    ghost predicate Valid()
      reads this
    {
      Elements(ignore) <= seen && result == seen - Elements(ignore) && Sound(store)
    }

    constructor (store: Store, ignore: seq<Hash>)
      requires Sound(store)
      ensures Valid() && this.store == store && this.ignore == ignore && seen == Elements(ignore)
    {
      this.store, this.ignore, result := store, ignore, {};
      seen := set h | h in ignore;
    }

    /** The callback that records an object. */
    method Record(h: Hash)
      requires Valid()
      modifies this
      ensures Valid() && seen == old(seen) + {h}
    {
      if h !in seen {
        result := result + {h};
        seen := seen + {h};
      }
    }

    method IterateCommitTrees(t: Hash) returns (r: Outcome)
      requires Valid() && IsTree(store, t)
      modifies this
      ensures Valid() && Added(store, t, old(seen), seen) && NoCommitAdded(store, old(seen), seen)
      ensures !r.NotFound?
      ensures r.TreesTooDeep? ==> NestedTooDeep(store, t)
      ensures r.Ok? ==> t in seen
      ensures r.Ok? && SubtreesPresent(store, t) ==> ClosedUpTo(store, old(seen), seen, {})
      ensures t !in old(seen) && StopsAtOnce(store, old(seen) + {t}, t) ==> r.Ok? && seen == old(seen) + {t}
    {
      hide Sound, FramesOk, Chain, Pending, Size, NestedTooDeep, BrokenBelow, NextPlace;
      if t in seen {
        return Ok;
      }
      StartTree(store, t, seen);
      Record(t);
      var w := new TreeWalker(store, t);
      while true
        invariant Valid() && w.Valid() && w.store == store && w.root == t && fresh(w)
        invariant WalkingTree(store, t, old(seen), seen, w.stack)
        invariant StopsAtOnce(store, old(seen) + {t}, t) ==> seen == old(seen) + {t} && w.stack == [Frame(t, 0)]
        decreases store.Keys - seen, Size(store, w.stack)
      {
        ghost var stack := w.stack;
        var step := w.Next(seen);
        match step {
          case Eof =>
            if SubtreesPresent(store, t) {
              EndTree(store, t, old(seen), seen, stack);
            }
            return Ok;
          case TooDeep =>
            return TreesTooDeep;
          case Entry(e) =>
            if e.mode == SUBMODULE {
              LeaveSubmodule(store, t, old(seen), seen, stack, e, w.stack);
              continue;
            }
            if e.hash in seen {
              continue;
            }
            MarkEntry(store, t, old(seen), seen, stack, e, w.stack);
            Record(e.hash);
        }
      }
    }

    method ReachableObjects(c: Hash) returns (r: Outcome)
      requires Valid() && IsCommit(store, c) && c !in seen
      modifies this
      ensures Valid() && Added(store, c, old(seen), seen)
      ensures r.NotFound? ==> !CompleteFrom(LinkGraph(store, false), c)
      ensures r.TreesTooDeep? ==> DeepBelow(store, c)
      ensures r.Ok? ==> c in seen
      ensures r.Ok? && SubtreesPresent(store, c) ==> ClosedUpTo(store, old(seen), seen, {})
    {
      hide WalkingHistory, Added, NoCommitAdded, ClosedUpTo, Frontier, Reaches, ReachesUpTo, LinkGraph, BrokenBelow, DeepBelow;
      var it := new CommitPreIter(CommitGraph(store), c, seen, ignore);
      assert it.skipped == seen;
      StartHistory(store, c, seen);
      while true
        invariant Valid() && it.Valid() && fresh(it) && it.g == CommitGraph(store) && it.start == c
        invariant it.skipped == old(seen) && it.ignored == Elements(ignore)
        invariant WalkingHistory(store, c, old(seen), seen, it.visited)
        decreases store.Keys - it.visited
      {
        SeenBefore(store, c, old(seen), seen, it.visited);
        var step := it.Next(seen);
        if step.Missing? {
          HistoryGap(store, false, c);
          return NotFound;
        }
        if step.Done? {
          EndHistory(store, c, old(seen), seen, it.visited);
          return Ok;
        }
        VisitedReached(store, c, it.skipped, it.visited, it.Pending(), step.commit);
        assert it.visited - {step.commit} + {step.commit} == it.visited;
        r := WalkCommit(c, step.commit, old(seen), it.visited - {step.commit});
        if !r.Ok? {
          return;
        }
      }
    }

    /** Records the commit `d` of the history of `c` and what its tree leads to. */
    method WalkCommit(ghost c: Hash, d: Hash, ghost before: set<Hash>, ghost visited: set<Hash>) returns (r: Outcome)
      requires Valid() && WalkingHistory(store, c, before, seen, visited)
      requires IsCommit(store, d) && d !in seen && Reaches(LinkGraph(store, false), c, d)
      modifies this
      ensures Valid() && Added(store, c, before, seen)
      ensures r.NotFound? ==> !CompleteFrom(LinkGraph(store, false), c)
      ensures r.TreesTooDeep? ==> DeepBelow(store, c)
      ensures r.Ok? ==> WalkingHistory(store, c, before, seen, visited + {d})
    {
      Record(d);
      var t := store[d].tree;
      ReachesLink(store, false, c, d, t);
      if t !in store || !store[t].Tree? {
        return NotFound;
      }
      r := IterateCommitTrees(t);
      AddedFrom(store, c, t, old(seen) + {d}, seen);
      if r.Ok? {
        CommitStep(store, c, before, old(seen), visited, d, seen);
      }
    }

    /** `processObject`. */
    method ProcessObject(h: Hash) returns (r: Outcome)
      requires Valid()
      modifies this
      ensures Valid() && Added(store, h, old(seen), seen)
      ensures r.NotFound? ==> !CompleteFrom(LinkGraph(store, false), h)
      ensures r.TreesTooDeep? ==> DeepBelow(store, h)
      ensures r.Ok? ==> h in seen
      ensures r.Ok? && SubtreesPresent(store, h) ==> ClosedUpTo(store, old(seen), seen, {})
      decreases store.Keys - seen
    {
      hide Reaches, LinkGraph, BrokenBelow, NestedTooDeep, Sound;
      ReachesSelf(LinkGraph(store, false), h);
      if h in seen {
        return Ok;
      }
      if h !in store {
        MissingItself(store, h);
        return NotFound;
      }
      match store[h] {
        case Commit(_, _) =>
          r := ReachableObjects(h);
        case Tree(_) =>
          r := IterateCommitTrees(h);
        case Tag(target) =>
          Record(h);
          ReachesLink(store, false, h, h, target);
          r := ProcessObject(target);
          AddedFrom(store, h, target, old(seen) + {h}, seen);
          TagStep(store, h, target);
          if r.Ok? && SubtreesPresent(store, h) {
            SubtreesBelow(store, h, target);
          }
        case Blob =>
          Record(h);
          r := Ok;
      }
    }

    /** The loop of `objects`. */
    method ProcessAll(objs: seq<Hash>, allowMissing: bool) returns (r: Outcome)
      requires Valid()
      modifies this
      ensures Valid() && old(seen) <= seen
      ensures forall x :: x in seen && x !in old(seen) ==> ReachableFrom(store, false, Elements(objs), x)
      ensures r.NotFound? ==> !allowMissing && exists o :: o in objs && !CompleteFrom(LinkGraph(store, false), o)
      ensures r.TreesTooDeep? ==> exists o :: o in objs && DeepBelow(store, o)
      ensures r.Ok? && Findable(store, objs, allowMissing) ==>
                Elements(objs) <= seen && ClosedUpTo(store, old(seen), seen, {})
    {
      hide Reaches, LinkGraph, BrokenBelow, NestedTooDeep, DeepBelow, Sound;
      for i := 0 to |objs|
        invariant Valid() && old(seen) <= seen
        invariant forall x :: x in seen && x !in old(seen) ==> ReachableFrom(store, false, Elements(objs), x)
        invariant Findable(store, objs, allowMissing) ==>
                    Elements(objs[..i]) <= seen && ClosedUpTo(store, old(seen), seen, {})
      {
        ghost var mid := seen;
        r := ProcessObject(objs[i]);
        assert forall x :: x in Elements(objs[..i + 1]) ==> x in Elements(objs[..i]) || x == objs[i];
        if r.NotFound? && allowMissing {
          continue;
        }
        if !r.Ok? {
          return;
        }
        if Findable(store, objs, allowMissing) {
          ClosedTrans(store, old(seen), mid, seen);
        }
      }
      assert objs[..|objs|] == objs;
      return Ok;
    }
  }

  /** Nothing the walk needs to load is missing: subtrees, or everything if missing objects
      are passed over. */
  ghost predicate Findable(s: Store, objs: seq<Hash>, allowMissing: bool) {
    forall i :: 0 <= i < |objs| ==>
      SubtreesPresent(s, objs[i]) && (allowMissing ==> CompleteFrom(LinkGraph(s, false), objs[i]))
  }

  lemma MissingItself(s: Store, h: Hash)
    requires h !in s
    ensures !CompleteFrom(LinkGraph(s, false), h)
  {
    ReachesSelf(LinkGraph(s, false), h);
  }

  /** What is wrong behind a tag's target is wrong behind the tag. */
  lemma TagStep(s: Store, h: Hash, target: Hash)
    requires Reaches(LinkGraph(s, false), h, target)
    ensures !CompleteFrom(LinkGraph(s, false), target) ==> !CompleteFrom(LinkGraph(s, false), h)
    ensures DeepBelow(s, target) ==> DeepBelow(s, h)
  {
    var g := LinkGraph(s, false);
    if x :| Reaches(g, target, x) && x !in g {
      ReachesTrans(g, h, target, x);
    }
    if t :| Reaches(g, target, t) && NestedTooDeep(s, t) {
      ReachesTrans(g, h, target, t);
    }
  }

  /** `hashSetToList`. */
  method ToList(hashes: set<Hash>) returns (list: seq<Hash>)
    ensures Elements(list) == hashes && |list| == |hashes|
  {
    list := [];
    var rest := hashes;
    while rest != {}
      invariant rest <= hashes && Elements(list) == hashes - rest && |list| == |hashes| - |rest|
      decreases rest
    {
      var h :| h in rest;
      assert Elements(list + [h]) == Elements(list) + {h};
      list, rest := list + [h], rest - {h};
    }
  }

  /** `objects`. */
  method CollectObjects(store: Store, objs: seq<Hash>, ignore: seq<Hash>, allowMissing: bool)
    returns (r: Outcome, list: seq<Hash>)
    requires Sound(store)
    ensures |list| == |Elements(list)|
    ensures forall x :: x in list ==> x !in ignore && ReachableFrom(store, false, Elements(objs), x)
    ensures r.NotFound? ==> !allowMissing && exists o :: o in objs && !CompleteFrom(LinkGraph(store, false), o)
    ensures r.TreesTooDeep? ==> exists o :: o in objs && DeepBelow(store, o)
    ensures r.Ok? && Findable(store, objs, allowMissing) ==>
              Elements(objs) <= Elements(list) + Elements(ignore)
    ensures r.Ok? && Findable(store, objs, allowMissing) ==>
              ClosedUpTo(store, Elements(ignore), Elements(list) + Elements(ignore), {})
  {
    hide Reaches, LinkGraph, BrokenBelow, DeepBelow, Sound, ClosedUpTo, Findable;
    var walk := new ObjectWalk(store, ignore);
    r := walk.ProcessAll(objs, allowMissing);
    if !r.Ok? {
      return r, [];
    }
    list := ToList(walk.result);
    assert forall x :: x in list <==> x in Elements(list);
    assert Elements(list) + Elements(ignore) == walk.seen;
  }

  /** Every object the wanted ones lead to is listed or behind an ignored one, and when all
      ignored objects are there, the list is exactly the difference. */
  method ObjectsWithStorageForIgnores(s: Store, ignoreStore: Store, objs: seq<Hash>, ignore: seq<Hash>)
    returns (r: Outcome, list: seq<Hash>)
    requires Sound(s) && Sound(ignoreStore) && Agree(s, ignoreStore)
    ensures |list| == |Elements(list)|
    ensures forall x :: x in list ==> ReachableFrom(s, false, Elements(objs), x)
    ensures r.NotFound? ==> exists o :: o in objs && !CompleteFrom(LinkGraph(s, false), o)
    ensures r.TreesTooDeep? ==> (exists o :: o in objs && DeepBelow(s, o)) || (exists o :: o in ignore && DeepBelow(ignoreStore, o))
    ensures r.Ok? && (forall o :: o in objs ==> SubtreesPresent(s, o)) ==>
              forall x :: ReachableFrom(s, false, Elements(objs), x) ==> Known(s, ignoreStore, ignore, list, x)
    ensures r.Ok? && (forall o :: o in objs ==> SubtreesPresent(s, o)) ==>
              SelfContained(s, ignoreStore, ignore, list)
    ensures r.Ok? && (forall o :: o in objs ==> SubtreesPresent(s, o))
            && (forall o :: o in ignore ==> CompleteFrom(LinkGraph(ignoreStore, false), o)) ==>
              forall x :: x in list <==>
                (ReachableFrom(s, false, Elements(objs), x) && !ReachableFrom(s + ignoreStore, false, Elements(ignore), x))
  {
    hide Reaches, LinkGraph, BrokenBelow, DeepBelow, Sound, ClosedUpTo, ReachableFrom, Agree;
    var found;
    r, found := CollectObjects(ignoreStore, ignore, [], true);
    if !r.Ok? {
      return r, [];
    }
    assert Elements([]) == {};
    assert Elements(found) + Elements([]) == Elements(found);
    r, list := CollectObjects(s, objs, found, false);
    if r.Ok? && (forall o :: o in objs ==> SubtreesPresent(s, o)) {
      assert Findable(s, objs, false);
      forall x | ReachableFrom(s, false, Elements(objs), x)
        ensures Known(s, ignoreStore, ignore, list, x)
      {
        ListedOrIgnored(s, ignoreStore, objs, ignore, found, list, x);
      }
      ListIsSelfContained(s, ignoreStore, objs, ignore, list);
      if forall o :: o in ignore ==> CompleteFrom(LinkGraph(ignoreStore, false), o) {
        IgnoresFindable(ignoreStore, ignore, found);
        forall x | x in list ensures !ReachableFrom(s + ignoreStore, false, Elements(ignore), x) {
          if ReachableFrom(s + ignoreStore, false, Elements(ignore), x) {
            IgnoresExact(s, ignoreStore, Elements(ignore), Elements(found), x);
          }
        }
      }
    }
  }

  /** An object is listed, or it lies behind an ignored one. */
  ghost predicate Known(s: Store, t: Store, ignore: seq<Hash>, list: seq<Hash>, x: Hash) {
    x in list || ReachableFrom(s + t, false, Elements(ignore), x)
  }

  /** Whatever a listed object names, other than a submodule, is known. */
  ghost predicate SelfContained(s: Store, t: Store, ignore: seq<Hash>, list: seq<Hash>) {
    forall x :: x in list && x in s ==>
      match s[x] {
        case Commit(tree, parents) =>
          Known(s, t, ignore, list, tree) && forall i :: 0 <= i < |parents| ==> Known(s, t, ignore, list, parents[i])
        case Tree(entries) =>
          forall i :: 0 <= i < |entries| && entries[i].mode != SUBMODULE ==> Known(s, t, ignore, list, entries[i].hash)
        case Tag(target) => Known(s, t, ignore, list, target)
        case Blob => true
      }
  }

  lemma LinkKnown(s: Store, t: Store, objs: seq<Hash>, ignore: seq<Hash>, list: seq<Hash>, x: Hash, y: Hash)
    requires ReachableFrom(s, false, Elements(objs), x) && Edge(LinkGraph(s, false), x, y)
    requires forall z :: ReachableFrom(s, false, Elements(objs), z) ==> Known(s, t, ignore, list, z)
    ensures Known(s, t, ignore, list, y)
  {
    hide Reaches, LinkGraph, Known;
    var o :| o in Elements(objs) && Reaches(LinkGraph(s, false), o, x);
    ReachesEdge(LinkGraph(s, false), x, y);
    ReachesTrans(LinkGraph(s, false), o, x, y);
  }

  lemma ListIsSelfContained(s: Store, t: Store, objs: seq<Hash>, ignore: seq<Hash>, list: seq<Hash>)
    requires forall x :: x in list ==> ReachableFrom(s, false, Elements(objs), x)
    requires forall x :: ReachableFrom(s, false, Elements(objs), x) ==> Known(s, t, ignore, list, x)
    ensures SelfContained(s, t, ignore, list)
  {
    hide ReachableFrom, LinkGraph, Known, Edge;
    forall x, y | x in list && Edge(LinkGraph(s, false), x, y) ensures Known(s, t, ignore, list, y) {
      LinkKnown(s, t, objs, ignore, list, x, y);
    }
    forall x | x in list && x in s && s[x].Commit?
      ensures Known(s, t, ignore, list, s[x].tree)
      ensures forall i :: 0 <= i < |s[x].parents| ==> Known(s, t, ignore, list, s[x].parents[i])
    {
      LinksAre(s, false, x, s[x].tree);
      forall i | 0 <= i < |s[x].parents| ensures Known(s, t, ignore, list, s[x].parents[i]) {
        LinksAre(s, false, x, s[x].parents[i]);
      }
    }
    forall x, i | x in list && x in s && s[x].Tree? && 0 <= i < |s[x].entries| && s[x].entries[i].mode != SUBMODULE
      ensures Known(s, t, ignore, list, s[x].entries[i].hash)
    {
      LinksAre(s, false, x, s[x].entries[i].hash);
    }
    forall x | x in list && x in s && s[x].Tag? ensures Known(s, t, ignore, list, s[x].target) {
      LinksAre(s, false, x, s[x].target);
    }
  }

  lemma ListedOrIgnored(s: Store, t: Store, objs: seq<Hash>, ignore: seq<Hash>, found: seq<Hash>, list: seq<Hash>, x: Hash)
    requires Agree(s, t) && ReachableFrom(s, false, Elements(objs), x)
    requires Elements(objs) <= Elements(list) + Elements(found)
    requires ClosedUpTo(s, Elements(found), Elements(list) + Elements(found), {})
    requires forall y :: y in found ==> ReachableFrom(t, false, Elements(ignore), y)
    ensures x in list || ReachableFrom(s + t, false, Elements(ignore), x)
  {
    hide Reaches, LinkGraph, ClosedUpTo, Agree;
    var o :| o in Elements(objs) && Reaches(LinkGraph(s, false), o, x);
    SeenOrBehind(s, Elements(found), Elements(list) + Elements(found), o, x);
    if x !in list {
      ReachesSelf(LinkGraph(s, false), x);
      var m :| m in found && Reaches(LinkGraph(s, false), m, x);
      var i :| i in Elements(ignore) && Reaches(LinkGraph(t, false), i, m);
      ReachesInUnion(s, t, i, m);
      ReachesInUnion(s, t, m, x);
      ReachesTrans(LinkGraph(s + t, false), i, m, x);
    }
  }

  /** With everything there, nothing found for the ignored objects is missing. */
  lemma IgnoresFindable(t: Store, ignore: seq<Hash>, found: seq<Hash>)
    requires Sound(t) && forall o :: o in ignore ==> CompleteFrom(LinkGraph(t, false), o)
    requires forall y :: y in found ==> ReachableFrom(t, false, Elements(ignore), y)
    ensures Findable(t, ignore, true) && forall h :: h in Elements(found) ==> h in t
  {
    forall i | 0 <= i < |ignore| ensures SubtreesPresent(t, ignore[i]) {
      CompleteHasSubtrees(t, ignore[i]);
    }
    forall h | h in found ensures h in t {
      var o :| o in Elements(ignore) && Reaches(LinkGraph(t, false), o, h);
      assert o in ignore;
    }
  }

  /** The subtree that comes first is missing: the file behind it is there, but the walk ends
      without it and without an error. */
  method TruncatedTree() returns (store: Store, r: Outcome, seen: set<Hash>)
    ensures 7 in store && Edge(LinkGraph(store, false), 1, 7)
    ensures r.Ok? && seen == {1}
  {
    store := map[1 := Tree([TreeEntry(DIR, 5), TreeEntry(REGULAR, 7)]), 7 := Blob];
    TruncatedFacts(store);
    hide StopsAtOnce, LinkGraph, Sound;
    var walk := new ObjectWalk(store, []);
    assert Elements([]) == {};
    r := walk.IterateCommitTrees(1);
    seen := walk.seen;
  }

  lemma TruncatedFacts(s: Store)
    requires s == map[1 := Tree([TreeEntry(DIR, 5), TreeEntry(REGULAR, 7)]), 7 := Blob]
    ensures Sound(s) && Edge(LinkGraph(s, false), 1, 7) && StopsAtOnce(s, {1}, 1)
  {
    HashesHave(s[1].entries, false, 1);
    assert NextPlace(s, {1}, [Frame(1, 0)]) == [Frame(1, 0)];
  }
}
