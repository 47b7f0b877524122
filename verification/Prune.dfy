/** Finding the objects that references still need, and pruning the others. */
module Prune {
  import opened Graph
  import opened ObjectGraph
  import opened Wrappers

  datatype Reference = HashReference(hash: Hash) | SymbolicReference(target: string)

  /** The shortcut for plain files, whatever their permissions. */
  predicate Plain(e: TreeEntry) {
    e.mode | 0x1ed == EXECUTABLE
  }

  /** Plain is a file of the regular type with no permission but those of 0755. */
  lemma PlainIs(e: TreeEntry)
    ensures Plain(e) <==> e.mode & 0xf000 == 0x8000 && e.mode & 0xe12 == 0 && e.mode < 0x1_0000
    ensures e.mode == REGULAR || e.mode == EXECUTABLE ==> Plain(e)
    ensures e.mode == DIR || e.mode == SUBMODULE ==> !Plain(e)
  {
  }

  /** Everything added has all it refers to, submodules included, in `after`. */
  ghost predicate ClosedSince(s: Store, before: set<Hash>, after: set<Hash>) {
    forall x, l :: x in after && x !in before && x in s && l in Links(s[x], true) ==> l in after
  }

  ghost predicate AddedFrom(s: Store, root: Hash, before: set<Hash>, after: set<Hash>) {
    before <= after && forall x :: x in after && x !in before ==> Reaches(LinkGraph(s, true), root, x)
  }

  ghost predicate PlainFile(s: Store, x: Hash) {
    exists t, i :: IsTree(s, t) && 0 <= i < |s[t].entries| && Plain(s[t].entries[i]) && s[t].entries[i].hash == x
  }

  /** An object that a walk gets past: present and no blob, unless some tree names it as a
      plain file. */
  ghost predicate Passable(s: Store, x: Hash) {
    (x in s && !s[x].Blob?) || PlainFile(s, x)
  }

  ghost predicate AddedPassable(s: Store, before: set<Hash>, after: set<Hash>) {
    forall x :: x in after && x !in before ==> Passable(s, x)
  }

  /** What one completed walk from `h` leaves behind. */
  ghost predicate Walked(s: Store, h: Hash, before: set<Hash>, after: set<Hash>) {
    h in after && ClosedSince(s, before, after) && AddedPassable(s, before, after)
  }

  /** A walk from `h` can come to an object that is missing or a blob, through links that
      are not plain files. */
  ghost predicate Stuck(s: Store, h: Hash) {
    exists x :: Reaches(WalkGraph(s), h, x) && (x !in s || s[x].Blob?)
  }

  ghost function Followed(entries: seq<TreeEntry>): seq<Hash> {
    if entries == [] then []
    else if Plain(entries[0]) then Followed(entries[1..])
    else [entries[0].hash] + Followed(entries[1..])
  }

  /** The links that are followed. */
  ghost function WalkGraph(s: Store): Edges {
    map h | h in s :: match s[h] case Tree(entries) => Followed(entries) case o => Links(o, true)
  }

  lemma {:induction false} FollowedHave(entries: seq<TreeEntry>, i: nat)
    requires i < |entries| && !Plain(entries[i])
    ensures entries[i].hash in Followed(entries)
  {
    if i > 0 {
      FollowedHave(entries[1..], i - 1);
    }
  }

  lemma StuckBehind(s: Store, a: Hash, b: Hash)
    requires Edge(WalkGraph(s), a, b) && Stuck(s, b)
    ensures Stuck(s, a)
  {
    var g := WalkGraph(s);
    var x :| Reaches(g, b, x) && (x !in s || s[x].Blob?);
    ReachesEdge(g, a, b);
    ReachesTrans(g, a, b, x);
  }

  /** The object `h` is being walked: whatever else was added is settled, and of its links
      those in `done` have been walked. */
  ghost predicate Walking(s: Store, h: Hash, before: set<Hash>, after: set<Hash>, done: set<Hash>) {
    && h in s && !s[h].Blob? && h in after && done <= after
    && AddedFrom(s, h, before, after)
    && ClosedSince(s, before + {h}, after) && AddedPassable(s, before, after)
  }

  lemma StartWalk(s: Store, h: Hash, before: set<Hash>)
    requires h in s && !s[h].Blob?
    ensures Walking(s, h, before, before + {h}, {})
  {
    ReachesSelf(LinkGraph(s, true), h);
  }

  /** One more link has been walked. */
  lemma WalkLink(s: Store, h: Hash, before: set<Hash>, seen: set<Hash>, done: set<Hash>, l: Hash, after: set<Hash>)
    requires Walking(s, h, before, seen, done) && l in Links(s[h], true)
    requires AddedFrom(s, l, seen, after) && Walked(s, l, seen, after)
    ensures Walking(s, h, before, after, done + {l})
  {
    hide Reaches, LinkGraph, Passable, Links;
    AddedBehind(s, h, before, seen, done, l, after);
  }

  lemma AddedBehind(s: Store, h: Hash, before: set<Hash>, seen: set<Hash>, done: set<Hash>, l: Hash, after: set<Hash>)
    requires Walking(s, h, before, seen, done) && l in Links(s[h], true) && AddedFrom(s, l, seen, after)
    ensures AddedFrom(s, h, before, after)
  {
    var g := LinkGraph(s, true);
    assert Edge(g, h, l);
    ReachesEdge(g, h, l);
    forall x | x in after && x !in seen ensures Reaches(g, h, x) {
      ReachesTrans(g, h, l, x);
    }
  }

  /** A plain file is recorded without being loaded. */
  lemma RecordPlain(s: Store, h: Hash, before: set<Hash>, seen: set<Hash>, done: set<Hash>, i: nat)
    requires Sound(s) && Walking(s, h, before, seen, done) && IsTree(s, h)
    requires i < |s[h].entries| && Plain(s[h].entries[i])
    ensures Walking(s, h, before, seen + {s[h].entries[i].hash}, done + {s[h].entries[i].hash})
  {
    var e := s[h].entries[i];
    HashesHave(s[h].entries, true, i);
    assert Edge(LinkGraph(s, true), h, e.hash);
    ReachesEdge(LinkGraph(s, true), h, e.hash);
    assert EntryOk(s, e);
    assert PlainFile(s, e.hash);
    hide Reaches, LinkGraph, PlainFile;
  }

  lemma EndWalk(s: Store, h: Hash, before: set<Hash>, seen: set<Hash>, done: set<Hash>)
    requires Walking(s, h, before, seen, done) && forall l :: l in Links(s[h], true) ==> l in done
    ensures Walked(s, h, before, seen)
  {
  }

  class ObjectWalker {
    const store: Store
    var seen: set<Hash>

    constructor (store: Store)
      ensures this.store == store && seen == {}
    {
      this.store, seen := store, {};
    }

    /** `walkObjectTree`. */
    method WalkObjectTree(h: Hash) returns (ok: bool)
      requires Sound(store)
      modifies this
      ensures AddedFrom(store, h, old(seen), seen)
      ensures ok ==> Walked(store, h, old(seen), seen)
      ensures !ok ==> Stuck(store, h)
      decreases store.Keys - seen, 1
    {
      hide Reaches, LinkGraph, WalkGraph, Stuck, Links, Sound, Passable;
      if h in seen {
        return true;
      }
      ReachesSelf(LinkGraph(store, true), h);
      seen := seen + {h};
      if h !in store || store[h].Blob? {
        StuckHere(store, h);
        return false;
      }
      StartWalk(store, h, old(seen));
      match store[h] {
        case Commit(_, _) =>
          ok := WalkCommit(h, old(seen));
        case Tree(_) =>
          ok := WalkTree(h, old(seen));
        case Tag(target) =>
          LinkFollowed(store, h, target);
          ok := Follow(h, target, old(seen), {});
          if ok {
            EndWalk(store, h, old(seen), seen, {target});
          }
      }
    }

    /** Walks one link of `h`. */
    method Follow(ghost h: Hash, l: Hash, ghost before: set<Hash>, ghost done: set<Hash>) returns (ok: bool)
      requires Sound(store) && Walking(store, h, before, seen, done)
      requires l in Links(store[h], true) && Edge(WalkGraph(store), h, l)
      modifies this
      ensures old(seen) <= seen && AddedFrom(store, h, before, seen)
      ensures ok ==> Walking(store, h, before, seen, done + {l})
      ensures !ok ==> Stuck(store, h)
      decreases store.Keys - seen, 2
    {
      hide Reaches, LinkGraph, WalkGraph, Stuck, Links, Sound, Passable;
      ok := WalkObjectTree(l);
      AddedBehind(store, h, before, old(seen), done, l, seen);
      if ok {
        WalkLink(store, h, before, old(seen), done, l, seen);
      } else {
        StuckBehind(store, h, l);
      }
    }

    method WalkCommit(h: Hash, ghost before: set<Hash>) returns (ok: bool)
      requires Sound(store) && Walking(store, h, before, seen, {}) && store[h].Commit?
      modifies this
      ensures AddedFrom(store, h, before, seen)
      ensures ok ==> Walked(store, h, before, seen)
      ensures !ok ==> Stuck(store, h)
      decreases store.Keys - seen, 3
    {
      hide Reaches, LinkGraph, WalkGraph, Stuck, Sound, Passable;
      var Commit(tree, parents) := store[h];
      LinkFollowed(store, h, tree);
      ok := Follow(h, tree, before, {});
      if !ok {
        return;
      }
      ghost var done := {tree};
      for i := 0 to |parents|
        invariant old(seen) <= seen && Walking(store, h, before, seen, done)
        invariant tree in done && forall j :: 0 <= j < i ==> parents[j] in done
      {
        LinkFollowed(store, h, parents[i]);
        ok := Follow(h, parents[i], before, done);
        if !ok {
          return;
        }
        done := done + {parents[i]};
      }
      EndWalk(store, h, before, seen, done);
      return true;
    }

    method WalkTree(h: Hash, ghost before: set<Hash>) returns (ok: bool)
      requires Sound(store) && Walking(store, h, before, seen, {}) && store[h].Tree?
      modifies this
      ensures AddedFrom(store, h, before, seen)
      ensures ok ==> Walked(store, h, before, seen)
      ensures !ok ==> Stuck(store, h)
      decreases store.Keys - seen, 3
    {
      hide Reaches, LinkGraph, WalkGraph, Stuck, Sound, Passable, Links;
      var entries := store[h].entries;
      ghost var done: set<Hash> := {};
      for i := 0 to |entries|
        invariant old(seen) <= seen && Walking(store, h, before, seen, done)
        invariant forall j :: 0 <= j < i ==> entries[j].hash in done
      {
        if Plain(entries[i]) {
          RecordPlain(store, h, before, seen, done, i);
          seen := seen + {entries[i].hash};
        } else {
          EntryFollowed(store, h, i);
          ok := Follow(h, entries[i].hash, before, done);
          if !ok {
            return;
          }
        }
        done := done + {entries[i].hash};
      }
      AllEntries(store, h, done);
      EndWalk(store, h, before, seen, done);
      return true;
    }

    /** `walkAllRefs`: after a successful walk the seen objects are exactly those that the
        hash references lead to. */
    method WalkAllRefs(refs: seq<Reference>) returns (ok: bool)
      requires Sound(store) && seen == {}
      modifies this
      ensures ok ==> forall x :: x in seen <==> ReachableFrom(store, true, Tips(refs), x)
      ensures ok ==> forall x :: x in seen ==> Passable(store, x)
      ensures !ok ==> exists r :: r in Tips(refs) && Stuck(store, r)
    {
      hide Reaches, LinkGraph, WalkGraph, Stuck, Sound, Passable, Links;
      for i := 0 to |refs|
        invariant ClosedSince(store, {}, seen) && AddedPassable(store, {}, seen)
        invariant forall j :: 0 <= j < i && refs[j].HashReference? ==> refs[j].hash in seen
        invariant forall x :: x in seen ==> ReachableFrom(store, true, Tips(refs), x)
      {
        if refs[i].HashReference? {
          assert refs[i].hash in Tips(refs);
          ok := WalkObjectTree(refs[i].hash);
          if !ok {
            return;
          }
        }
      }
      forall x | ReachableFrom(store, true, Tips(refs), x) ensures x in seen {
        SeenAll(store, Tips(refs), seen, x);
      }
      return true;
    }
  }

  ghost function Tips(refs: seq<Reference>): set<Hash> {
    set r | r in refs && r.HashReference? :: r.hash
  }

  lemma SeenAll(s: Store, tips: set<Hash>, seen: set<Hash>, x: Hash)
    requires ClosedSince(s, {}, seen) && tips <= seen && ReachableFrom(s, true, tips, x)
    ensures x in seen
  {
    var g := LinkGraph(s, true);
    var r :| r in tips && Reaches(g, r, x);
    assert ClosedUnder(g, seen);
    ClosedReaches(g, seen, r, x);
  }

  lemma StuckHere(s: Store, h: Hash)
    requires h !in s || s[h].Blob?
    ensures Stuck(s, h)
  {
    ReachesSelf(WalkGraph(s), h);
  }

  lemma LinkFollowed(s: Store, h: Hash, l: Hash)
    requires h in s && !s[h].Tree?
    requires (s[h].Commit? && (l == s[h].tree || l in s[h].parents)) || (s[h].Tag? && l == s[h].target)
    ensures l in Links(s[h], true) && Edge(WalkGraph(s), h, l)
    ensures s[h].Tag? ==> forall k :: k in Links(s[h], true) ==> k == l
  {
  }

  lemma EntryFollowed(s: Store, h: Hash, i: nat)
    requires IsTree(s, h) && i < |s[h].entries| && !Plain(s[h].entries[i])
    ensures s[h].entries[i].hash in Links(s[h], true) && Edge(WalkGraph(s), h, s[h].entries[i].hash)
  {
    HashesHave(s[h].entries, true, i);
    FollowedHave(s[h].entries, i);
  }

  lemma AllEntries(s: Store, h: Hash, done: set<Hash>)
    requires IsTree(s, h) && forall j :: 0 <= j < |s[h].entries| ==> s[h].entries[j].hash in done
    ensures forall l :: l in Links(s[h], true) ==> l in done
  {
    forall l | l in Links(s[h], true) ensures l in done {
      var j := HashFrom(s[h].entries, true, l);
    }
  }

  // --- Prune ---------------------------------------------------------------------------------

  /** A loose object that no hash reference leads to and that is old enough, if age matters.
      An object whose age is unknown is kept then. */
  ghost predicate Prunable(s: Store, refs: seq<Reference>, times: map<Hash, int>, olderThan: Option<int>, h: Hash) {
    && !ReachableFrom(s, true, Tips(refs), h)
    && (olderThan.Some? ==> h in times && times[h] < olderThan.value)
  }

  /** The prunable objects among the loose ones, in order. */
  ghost function PrunableOf(s: Store, refs: seq<Reference>, times: map<Hash, int>, olderThan: Option<int>,
                            loose: seq<Hash>): seq<Hash>
  {
    if loose == [] then []
    else
      var n := |loose| - 1;
      if Prunable(s, refs, times, olderThan, loose[n])
      then PrunableOf(s, refs, times, olderThan, loose[..n]) + [loose[n]]
      else PrunableOf(s, refs, times, olderThan, loose[..n])
  }

  datatype PruneResult = Pruned | WalkFailed | HandlerFailed

  lemma TipReaches(s: Store, refs: seq<Reference>, i: nat, h: Hash)
    requires i < |refs| && refs[i].HashReference?
    ensures Reaches(LinkGraph(s, true), refs[i].hash, h) ==> ReachableFrom(s, true, Tips(refs), h)
  {
    hide Reaches;
    assert refs[i].hash in Tips(refs);
  }

  /** `Prune`: the handler is given the prunable loose objects, in order, up to the first one
      it fails on; nothing if not all objects could be walked. */
  method Prune(s: Store, refs: seq<Reference>, loose: seq<Hash>, times: map<Hash, int>, olderThan: Option<int>,
               failing: set<Hash>)
    returns (r: PruneResult, handled: seq<Hash>)
    requires Sound(s)
    ensures r.WalkFailed? ==> handled == [] && exists t :: t in Tips(refs) && Stuck(s, t)
    ensures r.Pruned? ==> handled == PrunableOf(s, refs, times, olderThan, loose)
    ensures r.HandlerFailed? ==> exists n :: 0 <= n <= |loose| && handled == PrunableOf(s, refs, times, olderThan, loose[..n])
                                   && handled != [] && handled[|handled| - 1] in failing
    ensures forall i :: 0 <= i < |handled| - 1 ==> handled[i] !in failing
    ensures r.Pruned? ==> forall i :: 0 <= i < |handled| ==> handled[i] !in failing
    ensures forall h :: h in handled ==> h in loose && !ReachableFrom(s, true, Tips(refs), h)
    ensures forall h, i :: h in handled && 0 <= i < |refs| && refs[i].HashReference? ==>
              !Reaches(LinkGraph(s, true), refs[i].hash, h)
    ensures forall h :: h in handled && olderThan.Some? ==> h in times && times[h] < olderThan.value
    ensures r.Pruned? ==>
              forall h | h in loose && !ReachableFrom(s, true, Tips(refs), h)
                         && (olderThan.None? || (h in times && times[h] < olderThan.value)) :: h in handled
  {
    hide ReachableFrom, Sound, Stuck, Passable;
    handled := [];
    forall h, i | !ReachableFrom(s, true, Tips(refs), h) && 0 <= i < |refs| && refs[i].HashReference?
      ensures !Reaches(LinkGraph(s, true), refs[i].hash, h)
    {
      TipReaches(s, refs, i, h);
    }
    var walker := new ObjectWalker(s);
    var ok := walker.WalkAllRefs(refs);
    if !ok {
      return WalkFailed, [];
    }
    for i := 0 to |loose|
      invariant handled == PrunableOf(s, refs, times, olderThan, loose[..i])
      invariant forall i :: 0 <= i < |handled| ==> handled[i] !in failing
      invariant forall h :: h in handled ==> h in loose && !ReachableFrom(s, true, Tips(refs), h)
      invariant forall h :: h in handled && olderThan.Some? ==> h in times && times[h] < olderThan.value
      invariant forall j | 0 <= j < i && !ReachableFrom(s, true, Tips(refs), loose[j])
                           && (olderThan.None? || (loose[j] in times && times[loose[j]] < olderThan.value)) ::
                  loose[j] in handled
    {
      var h := loose[i];
      assert loose[..i + 1][..i] == loose[..i];
      if h in walker.seen {
        continue;
      }
      if olderThan.Some? {
        if h !in times || times[h] >= olderThan.value {
          continue;
        }
      }
      handled := handled + [h];
      if h in failing {
        return HandlerFailed, handled;
      }
    }
    assert loose[..|loose|] == loose;
    return Pruned, handled;
  }

  /** Pruning is safe: what references lead to, submodules aside, is never prunable. */
  lemma NeverPrunesNeeded(s: Store, refs: seq<Reference>, times: map<Hash, int>, olderThan: Option<int>, x: Hash)
    requires ReachableFrom(s, false, Tips(refs), x)
    ensures !Prunable(s, refs, times, olderThan, x)
  {
    var r :| r in Tips(refs) && Reaches(LinkGraph(s, false), r, x);
    var p :| PathFromTo(LinkGraph(s, false), p, r, x);
    forall i | 0 <= i < |p| - 1 ensures Edge(LinkGraph(s, true), p[i], p[i + 1]) {
      assert Edge(LinkGraph(s, false), p[i], p[i + 1]);
      if IsTree(s, p[i]) {
        var j := HashFrom(s[p[i]].entries, false, p[i + 1]);
        HashesHave(s[p[i]].entries, true, j);
      }
    }
    assert PathFromTo(LinkGraph(s, true), p, r, x);
  }
}
