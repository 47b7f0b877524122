/** The three commit iterators that go-git's history algorithms are built on:
    breadth first, breadth first with filters, and pre-order depth first.

    Each is a class whose fields change on every `Next`.  What they have in
    common is stated once, as `Frontier`: the nodes already visited, the nodes
    still pending, and how the two cover the part of the graph to be walked. */
module CommitWalkers {
  import opened Graph

  /** The outcome of one `Next`: a commit, the end of the walk (`io.EOF`), or
      a parent that could not be loaded from the store. */
  datatype Step = Got(commit: Hash) | Done | Missing

  /** `visited` and `pending` are reached by walks that stop at `limit`, and every
      visited node outside `limit` has all its parents visited, pending or exempt. */
  ghost predicate Frontier(g: Edges, start: Hash, limit: set<Hash>, exempt: set<Hash>,
                           visited: set<Hash>, pending: set<Hash>)
  {
    && exempt <= limit
    && (start in visited || start in pending || start in exempt)
    && (forall v :: v in visited ==> ReachesUpTo(g, start, v, limit))
    && (forall v :: v in pending ==> ReachesUpTo(g, start, v, limit))
    && (forall v :: v in visited && v !in limit ==> v in g)
    && (forall v, s :: v in visited && v !in limit && Edge(g, v, s) ==>
          s in visited || s in pending || s in exempt)
  }

  lemma {:induction false} FrontierPath(g: Edges, start: Hash, limit: set<Hash>, exempt: set<Hash>,
                                        visited: set<Hash>, p: seq<Hash>, k: nat)
    requires Frontier(g, start, limit, exempt, visited, {})
    requires IsPath(g, p) && p[0] == start && Avoids(p, limit)
    requires k < |p| && (k < |p| - 1 || p[k] !in exempt)
    ensures p[k] in visited
  {
    if k > 0 {
      FrontierPath(g, start, limit, exempt, visited, p, k - 1);
      assert Edge(g, p[k - 1], p[k]);
    }
  }

  /** With nothing pending, the visited nodes are exactly those reached without
      crossing `limit`. */
  lemma FrontierDone(g: Edges, start: Hash, limit: set<Hash>, exempt: set<Hash>, visited: set<Hash>)
    requires Frontier(g, start, limit, exempt, visited, {})
    ensures forall b :: b !in exempt ==> (b in visited <==> ReachesUpTo(g, start, b, limit))
  {
    forall b | b !in exempt && ReachesUpTo(g, start, b, limit)
      ensures b in visited
    {
      var p :| PathFromTo(g, p, start, b) && Avoids(p, limit);
      FrontierPath(g, start, limit, exempt, visited, p, |p| - 1);
    }
  }

  ghost function Elements(s: seq<Hash>): set<Hash> {
    set x | x in s
  }

  /** Moving `c` from pending to visited keeps the frontier when its parents, unless
      `c` is a limit, are visited, pending or exempt afterwards. */
  lemma FrontierVisit(g: Edges, start: Hash, limit: set<Hash>, exempt: set<Hash>,
                      visited: set<Hash>, pending: set<Hash>, c: Hash, pending': set<Hash>)
    requires Frontier(g, start, limit, exempt, visited, pending)
    requires c in pending && (c !in limit ==> c in g)
    requires pending - {c} <= pending'
    requires forall s :: s in pending' ==> s in pending || (c !in limit && Edge(g, c, s))
    requires c !in limit ==> forall s :: s in g[c] ==> s in visited + {c} || s in pending' || s in exempt
    ensures Frontier(g, start, limit, exempt, visited + {c}, pending')
  {
    forall s | s in pending' && s !in pending
      ensures ReachesUpTo(g, start, s, limit)
    {
      UpToExtend(g, start, c, s, limit);
    }
  }

  /** A commit with all its parents in the store. */
  ghost predicate Passable(g: Edges, c: Hash) {
    c in g && forall p :: p in g[c] ==> p in g
  }

  /** The graph without the edges of commits that lack a parent: no walk gets past those. */
  ghost function Whole(g: Edges): Edges {
    map c | c in g :: if Passable(g, c) then g[c] else []
  }

  /** A walk that stops at `limit` meets no commit that lacks a parent. */
  ghost predicate NoGap(g: Edges, start: Hash, limit: set<Hash>) {
    forall c :: ReachesUpTo(g, start, c, limit) && c !in limit ==> Passable(g, c)
  }

  ghost predicate WholeReach(g: Edges, start: Hash, limit: set<Hash>, s: set<Hash>) {
    forall c :: c in s ==> ReachesUpTo(Whole(g), start, c, limit)
  }

  lemma WholeVisit(g: Edges, start: Hash, limit: set<Hash>, s: set<Hash>, c: Hash, s': set<Hash>)
    requires WholeReach(g, start, limit, s) && c in s
    requires forall x :: x in s' ==> x in s || (c !in limit && Passable(g, c) && x in g[c])
    ensures WholeReach(g, start, limit, s')
  {
    hide ReachesUpTo;
    forall x | x in s' && x !in s ensures ReachesUpTo(Whole(g), start, x, limit) {
      assert Edge(Whole(g), c, x);
      UpToExtend(Whole(g), start, c, x, limit);
    }
  }

  lemma CompleteNoGap(g: Edges, start: Hash, limit: set<Hash>)
    requires CompleteFrom(g, start)
    ensures NoGap(g, start, limit)
  {
    hide ReachesUpTo, Reaches;
    forall c | ReachesUpTo(g, start, c, limit) ensures Passable(g, c) {
      UpToReaches(g, start, c, limit);
      forall p | p in g[c] ensures p in g {
        ReachesEdge(g, c, p);
        ReachesTrans(g, start, c, p);
      }
    }
  }

  /** commit_walker_bfs.go: `bfsCommitIterator`. */
  class BfsCommitIter {
    const g: Edges
    const seenExternal: set<Hash>
    var seen: set<Hash>
    var queue: seq<Hash>
    ghost const start: Hash
    ghost const skipped: set<Hash>
    ghost var visited: set<Hash>

    ghost predicate Valid()
      reads this
    {
      && visited !! skipped
      && seenExternal <= skipped
      && seen <= visited + skipped
      && skipped + visited == seen + seenExternal
      && (forall c :: c in queue ==> c in g)
      && Frontier(g, start, skipped, skipped, visited, Elements(queue))
    }

    constructor (g: Edges, c: Hash, seenExternal: set<Hash>, ignore: seq<Hash>)
      requires c in g
      ensures Valid() && this.g == g && start == c && visited == {}
      ensures skipped == seenExternal + Elements(ignore)
    {
      this.g, this.seenExternal := g, seenExternal;
      seen := set h | h in ignore;
      queue := [c];
      start, skipped, visited := c, seenExternal + Elements(ignore), {};
      UpToSelf(g, c, seenExternal + Elements(ignore));
    }

    method AppendHash(h: Hash) returns (ok: bool)
      modifies this`queue
      ensures ok <==> h in seen + seenExternal || h in g
      ensures queue == if h !in seen + seenExternal && h in g then old(queue) + [h] else old(queue)
    {
      if h in seen || h in seenExternal {
        return true;
      }
      if h !in g {
        return false;
      }
      queue := queue + [h];
      return true;
    }

    /** Marks `c`, just taken off the queue, as seen and queues its parents. */
    method Visit(c: Hash) returns (ok: bool)
      requires visited !! skipped && seenExternal <= skipped
      requires skipped + visited == seen + seenExternal
      requires c in g && c !in seen + seenExternal && (forall x :: x in queue ==> x in g)
      requires Frontier(g, start, skipped, skipped, visited, Elements(queue) + {c})
      modifies this
      ensures !ok ==> !CompleteFrom(g, start)
      ensures ok ==> Valid() && visited == old(visited) + {c}
    {
      seen := seen + {c};
      for i := 0 to |g[c]|
        modifies this`queue
        invariant forall x :: x in old(queue) ==> x in queue
        invariant forall x :: x in queue ==> x in g && (x in old(queue) || x in g[c])
        invariant forall j :: 0 <= j < i ==> g[c][j] in queue || g[c][j] in seen + seenExternal
      {
        ok := AppendHash(g[c][i]);
        if !ok {
          UpToReaches(g, start, c, skipped);
          ReachesEdge(g, c, g[c][i]);
          ReachesTrans(g, start, c, g[c][i]);
          return;
        }
      }
      FrontierVisit(g, start, skipped, skipped, visited, Elements(old(queue)) + {c}, c, Elements(queue));
      visited := visited + {c};
      ok := true;
    }

    /** One more commit, each exactly once; at the end `visited` is everything
        reachable without entering a skipped commit. */
    method Next() returns (r: Step)
      requires Valid()
      modifies this
      ensures r.Missing? ==> !CompleteFrom(g, start)
      ensures !r.Missing? ==> Valid()
      ensures r.Got? ==> r.commit !in old(visited) && visited == old(visited) + {r.commit} && r.commit in g
      ensures r.Done? ==> visited == old(visited)
      ensures r.Done? ==> forall b :: b !in skipped ==> (b in visited <==> ReachesUpTo(g, start, b, skipped))
    {
      while true
        invariant Valid() && visited == old(visited)
        decreases |queue|
      {
        if |queue| == 0 {
          FrontierDone(g, start, skipped, skipped, visited);
          return Done;
        }
        var c := queue[0];
        ghost var before := queue;
        queue := queue[1..];
        assert Elements(before) == Elements(queue) + {c};
        if c in seen || c in seenExternal {
          continue;
        }
        var ok := Visit(c);
        return if ok then Got(c) else Missing;
      }
    }
  }

  /** commit_walker_bfs_filtered.go: `filterCommitIter`.  The two filters are closures
      that are consulted at every call, so they are arguments of `Next`. */
  class FilterCommitIter {
    const g: Edges
    var visited: set<Hash>
    var queue: seq<Hash>
    var lastErr: bool
    ghost const start: Hash
    ghost const limit: set<Hash>
    ghost var walked: set<Hash>

    ghost predicate Valid()
      reads this
    {
      && !lastErr
      && visited == walked
      && walked <= g.Keys
      && (forall c :: c in queue ==> c in g)
      && Frontier(g, start, limit, {}, walked, Elements(queue))
      && WholeReach(g, start, limit, walked + Elements(queue))
    }

    /** The walk is over and its bookkeeping has been released. */
    ghost predicate Closed()
      reads this
    {
      && walked <= g.Keys
      && Frontier(g, start, limit, {}, walked, {})
    }

    constructor (g: Edges, from: Hash, ghost limit: set<Hash>)
      requires from in g
      ensures Valid() && this.g == g && start == from && this.limit == limit && walked == {}
    {
      this.g, visited, queue, lastErr := g, {}, [from], false;
      start, this.limit, walked := from, limit, {};
      UpToSelf(g, from, limit);
      UpToSelf(Whole(g), from, limit);
    }

    method Close()
      modifies this`visited, this`queue, this`lastErr
      ensures visited == {} && queue == [] && lastErr
    {
      visited, queue, lastErr := {}, [], true;
    }

    method PopNewFromQueue() returns (r: Step)
      requires Valid()
      modifies this`queue
      ensures r == Done ==> queue == [] && Frontier(g, start, limit, {}, walked, {})
      ensures r.Got? ==> r.commit in g && r.commit !in visited && (forall c :: c in queue ==> c in g)
      ensures r.Got? ==> Frontier(g, start, limit, {}, walked, Elements(queue) + {r.commit})
      ensures r.Got? ==> WholeReach(g, start, limit, walked + Elements(queue) + {r.commit})
      ensures !r.Missing?
    {
      while true
        invariant Valid()
        decreases |queue|
      {
        if |queue| == 0 {
          return Done;
        }
        var first := queue[0];
        ghost var before := queue;
        queue := queue[1..];
        assert forall x :: x in before ==> x == first || x in queue;
        if first in visited {
          continue;
        }
        assert Elements(before) == Elements(queue) + {first};
        return Got(first);
      }
    }

    method AddToQueue(hashes: seq<Hash>) returns (ok: bool)
      modifies this`queue
      requires forall c :: c in queue ==> c in g
      ensures forall c :: c in queue ==> c in g
      ensures ok ==> forall x :: x in old(queue) ==> x in queue
      ensures ok ==> forall x :: x in queue ==> x in old(queue) || x in hashes
      ensures ok ==> forall h :: h in hashes ==> h in queue || h in visited
      ensures !ok ==> exists h :: h in hashes && h !in g
    {
      for i := 0 to |hashes|
        invariant forall c :: c in queue ==> c in g
        invariant forall x :: x in old(queue) ==> x in queue
        invariant forall x :: x in queue ==> x in old(queue) || x in hashes
        invariant forall j :: 0 <= j < i ==> hashes[j] in queue || hashes[j] in visited
      {
        if hashes[i] in visited {
          continue;
        }
        if hashes[i] !in g {
          return false;
        }
        queue := queue + [hashes[i]];
      }
      return true;
    }

    /** Marks a popped commit as visited and, unless it is a limit, queues its parents. */
    method Visit(commit: Hash, atLimit: bool) returns (ok: bool)
      requires !lastErr && visited == walked && walked <= g.Keys
      requires commit in g && commit !in walked && (forall c :: c in queue ==> c in g)
      requires atLimit <==> commit in limit
      requires Frontier(g, start, limit, {}, walked, Elements(queue) + {commit})
      requires WholeReach(g, start, limit, walked + Elements(queue) + {commit})
      modifies this
      ensures walked == old(walked) + {commit}
      ensures ok ==> Valid()
      ensures !ok ==> !NoGap(g, start, limit)
    {
      ghost var pending := Elements(queue) + {commit};
      visited := visited + {commit};
      ok := true;
      if !atLimit {
        ok := AddToQueue(g[commit]);
        if !ok {
          assert !Passable(g, commit);
          walked := walked + {commit};
          Close();
          return;
        }
      }
      FrontierVisit(g, start, limit, {}, walked, pending, commit, Elements(queue));
      WholeVisit(g, start, limit, walked + pending, commit, walked + {commit} + Elements(queue));
      walked := walked + {commit};
    }

    /** Walks exactly one more commit, or closes the iterator at the end of the walk. */
    method Advance(isLimit: Hash -> bool) returns (r: Step)
      requires Valid()
      requires forall h :: h !in walked ==> (isLimit(h) <==> h in limit)
      modifies this
      ensures r.Missing? ==> !NoGap(g, start, limit)
      ensures r.Got? ==> Valid() && r.commit !in old(walked) && r.commit in g && walked == old(walked) + {r.commit}
      ensures r.Missing? ==> old(walked) <= walked
      ensures r.Done? ==> walked == old(walked) && Closed()
    {
      r := PopNewFromQueue();
      if r.Done? {
        Close();
        return;
      }
      var ok := Visit(r.commit, isLimit(r.commit));
      if !ok {
        r := Missing;
      }
    }

    /** The next commit that passes `isValid`.  `isLimit` may change between calls as
        long as it agrees with the walk's limit on commits not walked yet. */
    method Next(isValid: Hash -> bool, isLimit: Hash -> bool) returns (r: Step)
      requires Valid()
      requires forall h :: h !in walked ==> (isLimit(h) <==> h in limit)
      modifies this
      ensures old(walked) <= walked
      ensures r.Missing? ==> !NoGap(g, start, limit)
      ensures r.Got? ==> Valid() && isValid(r.commit) && r.commit in walked && r.commit !in old(walked)
      ensures r.Got? ==> forall c :: c in walked && isValid(c) ==> c == r.commit || c in old(walked)
      ensures r.Done? ==> Closed() && (forall c :: c in walked && isValid(c) ==> c in old(walked))
    {
      while true
        invariant Valid() && old(walked) <= walked
        invariant forall c :: c in walked && isValid(c) ==> c in old(walked)
        decreases g.Keys - walked
      {
        r := Advance(isLimit);
        if !r.Got? || isValid(r.commit) {
          return;
        }
      }
    }

    /** A closed walk has visited exactly what is reached without crossing the limit. */
    lemma WalkedExactly()
      requires Closed()
      ensures forall b :: b in walked <==> ReachesUpTo(g, start, b, limit)
    {
      FrontierDone(g, start, limit, {}, walked);
    }

    /** A walk that ends has met no commit that lacks a parent. */
    lemma EndedNoGap()
      requires Closed()
      ensures NoGap(g, start, limit)
    {
      WalkedExactly();
      forall c | c in walked && c !in limit ensures Passable(g, c) {
        assert forall p :: p in g[c] ==> Edge(g, c, p);
      }
    }
  }

  /** What a stack of half-consumed parent lists still holds. */
  ghost function StackElements(stack: seq<seq<Hash>>): set<Hash> {
    if stack == [] then {} else StackElements(stack[..|stack| - 1]) + Elements(stack[|stack| - 1])
  }

  function StackSize(stack: seq<seq<Hash>>): nat {
    if stack == [] then 0 else 1 + |stack[|stack| - 1]| + StackSize(stack[..|stack| - 1])
  }

  /** commit_walker.go: `commitPreIterator`, a stack of parent iterators.  The map
      `seenExternal` is shared with the caller, who may add to it between calls. */
  class CommitPreIter {
    const g: Edges
    var seen: set<Hash>
    var stack: seq<seq<Hash>>
    var begin: seq<Hash>          // the not yet returned starting commit, if any
    ghost const start: Hash
    ghost const skipped: set<Hash>
    ghost const ignored: set<Hash>
    ghost var visited: set<Hash>

    ghost function Pending(): set<Hash>
      reads this
    {
      StackElements(stack) + Elements(begin)
    }

    ghost predicate Valid()
      reads this
    {
      && |begin| <= 1 && start in g
      && visited !! skipped
      && ignored <= skipped
      && seen == ignored + visited
      && (forall c :: c in begin ==> c in g)
      && visited <= g.Keys
      && Frontier(g, start, skipped, skipped, visited, Pending())
    }

    constructor (g: Edges, c: Hash, ghost seenExternal: set<Hash>, ignore: seq<Hash>)
      requires c in g
      ensures Valid() && this.g == g && start == c && visited == {}
      ensures skipped == seenExternal + Elements(ignore) && ignored == Elements(ignore)
    {
      this.g, stack, begin := g, [], [c];
      seen := set h | h in ignore;
      start, skipped, ignored, visited := c, seenExternal + Elements(ignore), Elements(ignore), {};
      UpToSelf(g, c, seenExternal + Elements(ignore));
    }

    /** Takes the next commit off the starting slot or the innermost parent list. */
    method TakeNext() returns (r: Step)
      requires Valid()
      modifies this`stack, this`begin
      ensures r.Missing? ==> !CompleteFrom(g, start)
      ensures r.Done? ==> Valid() && Pending() == {}
      ensures r.Got? ==> r.commit in g && |begin| <= 1 && (forall c :: c in begin ==> c in g)
      ensures r.Got? ==> Pending() + {r.commit} == old(Pending())
      ensures r.Got? ==> StackSize(stack) + |begin| < StackSize(old(stack)) + |old(begin)|
    {
      if begin != [] {
        r := Got(begin[0]);
        begin := [];
        return;
      }
      while true
        invariant Valid() && begin == []
        invariant StackElements(stack) == StackElements(old(stack))
        invariant StackSize(stack) <= StackSize(old(stack))
        decreases |stack|
      {
        var current := |stack| - 1;
        if current < 0 {
          return Done;
        }
        if stack[current] == [] {
          stack := stack[..current];
          continue;
        }
        var c := stack[current][0];
        if c !in g {
          MissingParent(c);
          return Missing;
        }
        assert stack == stack[..current] + [stack[current]];
        TakeTop(stack[..current], stack[current]);
        stack := stack[..current] + [stack[current][1..]];
        return Got(c);
      }
    }

    static lemma {:induction false} TakeTop(below: seq<seq<Hash>>, top: seq<Hash>)
      requires top != []
      ensures StackElements(below + [top[1..]]) + {top[0]} == StackElements(below + [top])
      ensures StackSize(below + [top[1..]]) < StackSize(below + [top])
    {
      assert (below + [top])[..|below|] == below == (below + [top[1..]])[..|below|];
      assert Elements(top) == Elements(top[1..]) + {top[0]};
    }

    /** What is pending is reachable from the start, so a missing one leaves the history incomplete. */
    lemma MissingParent(c: Hash)
      requires Valid() && begin == [] && c in StackElements(stack) && c !in g
      ensures !CompleteFrom(g, start)
    {
      assert ReachesUpTo(g, start, c, skipped);
      UpToReaches(g, start, c, skipped);
    }

    /** Marks `c`, just taken, as seen and stacks an iterator over its unseen parents. */
    method Visit(c: Hash)
      requires |begin| <= 1 && start in g && visited !! skipped && ignored <= skipped && visited <= g.Keys
      requires seen == ignored + visited && (forall x :: x in begin ==> x in g)
      requires c in g && c !in visited && c !in skipped
      requires Frontier(g, start, skipped, skipped, visited, Pending() + {c})
      modifies this
      ensures Valid() && visited == old(visited) + {c}
    {
      seen := seen + {c};
      if |g[c]| > 0 {
        var parents := Unseen(g[c], seen);
        PushTop(stack, parents);
        stack := stack + [parents];
      }
      FrontierVisit(g, start, skipped, skipped, visited, old(Pending()) + {c}, c, Pending());
      visited := visited + {c};
    }

    /** One more commit in pre-order.  `seenExternal` must agree with the skipped set
        on every commit not visited yet. */
    method Next(seenExternal: set<Hash>) returns (r: Step)
      requires Valid()
      requires forall h :: h in g && h !in visited ==> (h in seenExternal + ignored <==> h in skipped)
      modifies this
      ensures r.Missing? ==> !CompleteFrom(g, start)
      ensures !r.Missing? ==> Valid()
      ensures r.Got? ==> r.commit in g && r.commit !in old(visited) && r.commit !in skipped
      ensures r.Got? ==> visited == old(visited) + {r.commit}
      ensures r.Done? ==> visited == old(visited)
      ensures r.Done? ==> forall b :: b !in skipped ==> (b in visited <==> ReachesUpTo(g, start, b, skipped))
    {
      while true
        invariant Valid() && visited == old(visited)
        decreases StackSize(stack) + |begin|
      {
        r := TakeNext();
        if r.Missing? {
          return;
        }
        if r.Done? {
          FrontierDone(g, start, skipped, skipped, visited);
          return;
        }
        if r.commit in seen || r.commit in seenExternal {
          continue;
        }
        Visit(r.commit);
        return;
      }
    }

    static lemma {:induction false} PushTop(stack: seq<seq<Hash>>, top: seq<Hash>)
      ensures StackElements(stack + [top]) == StackElements(stack) + Elements(top)
    {
      assert (stack + [top])[..|stack|] == stack;
    }
  }

  /** commit_walker.go: the hashes `filteredParentIter` keeps. */
  method Unseen(hashes: seq<Hash>, seen: set<Hash>) returns (r: seq<Hash>)
    ensures forall h :: h in r <==> h in hashes && h !in seen
  {
    r := [];
    for i := 0 to |hashes|
      invariant forall h :: h in r <==> h in hashes[..i] && h !in seen
    {
      if hashes[i] !in seen {
        r := r + [hashes[i]];
      }
    }
    assert hashes[..|hashes|] == hashes;
  }
}
