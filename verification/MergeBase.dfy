/** plumbing/object/merge_base.go: `IsAncestor`, `Independents` and `MergeBase`,
    proved against declarative sets of ancestors.

    A commit is named by its hash; the history gives its parents and the time
    it was committed. */
module MergeBase {
  import opened Graph
  import opened CommitWalkers

  datatype Commit = Commit(parents: seq<Hash>, when: int)

  type History = map<Hash, Commit>

  datatype Result<T> = Ok(value: T) | NotTraversable

  function Parents(history: History): (g: Edges)
    ensures g.Keys == history.Keys
  {
    map h | h in history :: history[h].parents
  }

  // --- Lists of commits -------------------------------------------------------

  ghost predicate Distinct(s: seq<Hash>) {
    forall i, j :: 0 <= i < j < |s| ==> s[i] != s[j]
  }

  /** `s` with every member of `drop` left out. */
  function FilterOut(s: seq<Hash>, drop: set<Hash>): seq<Hash> {
    if s == [] then []
    else if s[0] in drop then FilterOut(s[1..], drop)
    else [s[0]] + FilterOut(s[1..], drop)
  }

  lemma {:induction false} FilterOutMembers(s: seq<Hash>, drop: set<Hash>)
    ensures forall x :: x in FilterOut(s, drop) <==> x in s && x !in drop
    ensures Elements(FilterOut(s, drop)) == Elements(s) - drop
    ensures Distinct(s) ==> Distinct(FilterOut(s, drop))
  {
    if s != [] {
      FilterOutMembers(s[1..], drop);
      assert forall x :: x in s <==> x == s[0] || x in s[1..];
      if Distinct(s) {
        assert forall i :: 0 <= i < |s| - 1 ==> s[1..][i] == s[i + 1];
      }
    }
  }

  lemma {:induction false} FilterOutTwice(s: seq<Hash>, a: set<Hash>, b: set<Hash>)
    ensures FilterOut(FilterOut(s, a), b) == FilterOut(s, a + b)
  {
    if s != [] {
      FilterOutTwice(s[1..], a, b);
      if s[0] !in a {
        assert FilterOut(s, a)[1..] == FilterOut(s[1..], a);
      }
    }
  }

  lemma {:induction false} FilterOutConcat(s: seq<Hash>, t: seq<Hash>, drop: set<Hash>)
    ensures FilterOut(s + t, drop) == FilterOut(s, drop) + FilterOut(t, drop)
  {
    if s == [] {
      assert s + t == t;
    } else {
      FilterOutConcat(s[1..], t, drop);
      assert (s + t)[1..] == s[1..] + t;
      assert (s + t)[0] == s[0];
      if s[0] !in drop {
        calc {
          FilterOut(s + t, drop);
          [s[0]] + (FilterOut(s[1..], drop) + FilterOut(t, drop));
          ([s[0]] + FilterOut(s[1..], drop)) + FilterOut(t, drop);
        }
      }
    }
  }

  lemma {:induction false} FilterOutNone(s: seq<Hash>, drop: set<Hash>)
    requires Elements(s) !! drop
    ensures FilterOut(s, drop) == s
  {
    if s != [] {
      assert s[0] in Elements(s);
      FilterOutNone(s[1..], drop);
    }
  }

  ghost predicate NewestFirst(history: History, s: seq<Hash>) {
    && (forall i :: 0 <= i < |s| ==> s[i] in history)
    && (forall i, j :: 0 <= i < j < |s| ==> history[s[i]].when >= history[s[j]].when)
  }

  /** `sortByCommitDateDesc`: some permutation of the commits, newest first. */
  method SortByCommitDateDesc(history: History, commits: seq<Hash>) returns (sorted: seq<Hash>)
    requires forall c :: c in commits ==> c in history
    ensures multiset(sorted) == multiset(commits)
    ensures forall c :: c in sorted <==> c in commits
    ensures NewestFirst(history, sorted)
  {
    sorted := [];
    for n := 0 to |commits|
      invariant multiset(sorted) == multiset(commits[..n])
      invariant NewestFirst(history, sorted)
    {
      assert commits[..n + 1] == commits[..n] + [commits[n]];
      sorted := InsertByDate(history, sorted, commits[n]);
    }
    assert commits[..|commits|] == commits;
    forall c ensures c in sorted <==> c in commits {
      assert c in sorted <==> c in multiset(sorted);
    }
  }

  method InsertByDate(history: History, sorted: seq<Hash>, c: Hash) returns (r: seq<Hash>)
    requires NewestFirst(history, sorted) && c in history
    ensures multiset(r) == multiset(sorted) + multiset{c}
    ensures NewestFirst(history, r)
  {
    var k := 0;
    while k < |sorted| && history[sorted[k]].when >= history[c].when
      invariant 0 <= k <= |sorted|
      invariant forall i :: 0 <= i < k ==> history[sorted[i]].when >= history[c].when
    {
      k := k + 1;
    }
    r := sorted[..k] + [c] + sorted[k..];
    InsertMultiset(sorted, k, c);
    InsertOrder(history, sorted, k, c);
  }

  lemma InsertMultiset(s: seq<Hash>, k: nat, c: Hash)
    requires k <= |s|
    ensures multiset(s[..k] + [c] + s[k..]) == multiset(s) + multiset{c}
  {
    assert s == s[..k] + s[k..];
  }

  lemma InsertOrder(history: History, s: seq<Hash>, k: nat, c: Hash)
    requires k <= |s| && c in history && NewestFirst(history, s)
    requires forall i :: 0 <= i < k ==> history[s[i]].when >= history[c].when
    requires k < |s| ==> history[s[k]].when <= history[c].when
    ensures NewestFirst(history, s[..k] + [c] + s[k..])
  {
    var r := s[..k] + [c] + s[k..];
    assert forall i :: 0 <= i < |r| ==> r[i] == if i < k then s[i] else if i == k then c else s[i - 1];
  }

  method IndexOf(commits: seq<Hash>, target: Hash) returns (k: int)
    ensures k == -1 ==> target !in commits
    ensures k != -1 ==> 0 <= k < |commits| && commits[k] == target && target !in commits[..k]
  {
    for i := 0 to |commits|
      invariant target !in commits[..i]
    {
      if commits[i] == target {
        return i;
      }
    }
    return -1;
  }

  method Remove(commits: seq<Hash>, toDelete: Hash) returns (res: seq<Hash>)
    ensures res == FilterOut(commits, {toDelete})
  {
    res := [];
    for i := 0 to |commits|
      invariant res + FilterOut(commits[i..], {toDelete}) == FilterOut(commits, {toDelete})
    {
      assert commits[i..][1..] == commits[i + 1..];
      if commits[i] != toDelete {
        res := res + [commits[i]];
      }
    }
  }

  method RemoveDuplicated(commits: seq<Hash>) returns (res: seq<Hash>)
    ensures Distinct(res)
    ensures forall c :: c in res <==> c in commits
  {
    var seen: set<Hash> := {};
    res := [];
    for i := 0 to |commits|
      invariant Distinct(res)
      invariant forall c :: c in res <==> c in seen
      invariant forall c :: c in res <==> c in commits[..i]
    {
      if commits[i] !in seen {
        seen := seen + {commits[i]};
        res := res + [commits[i]];
      }
    }
    assert commits[..|commits|] == commits;
  }

  // --- IsAncestor -------------------------------------------------------------

  /** Whether `c` is `other` or one of its ancestors.  The answer can only be a
      failure when part of `other`'s history is missing. */
  method IsAncestor(history: History, c: Hash, other: Hash) returns (r: Result<bool>)
    requires other in history
    ensures r.Ok? ==> (r.value <==> Reaches(Parents(history), other, c))
    ensures CompleteFrom(Parents(history), other) ==> r.Ok?
  {
    var g := Parents(history);
    var iter := new CommitPreIter(g, other, {}, []);
    while true
      invariant fresh(iter) && iter.Valid() && iter.g == g && iter.start == other
      invariant iter.skipped == {} && iter.ignored == {}
      invariant c !in iter.visited
      decreases g.Keys - iter.visited
    {
      var step := iter.Next({});
      if step.Missing? {
        return NotTraversable;
      }
      if step.Done? {
        NoLimit(g, other, c);
        return Ok(false);
      }
      if step.commit == c {
        assert ReachesUpTo(g, other, c, {});
        NoLimit(g, other, c);
        return Ok(true);
      }
    }
  }

  // --- Independents -----------------------------------------------------------

  /** `c` is in the list and no other member of the list reaches it. */
  ghost predicate Independent(g: Edges, list: seq<Hash>, c: Hash) {
    c in list && forall o :: o in list && o != c ==> !Reaches(g, o, c)
  }

  ghost predicate Dominated(g: Edges, candidates: set<Hash>, c: Hash) {
    exists o :: o in candidates && Reaches(g, o, c)
  }

  /** Every commit of the list is a candidate or is reached by one. */
  ghost predicate AllDominated(g: Edges, list: set<Hash>, candidates: set<Hash>) {
    && candidates <= list
    && forall c :: c in list && c !in candidates ==> Dominated(g, candidates, c)
  }

  /** What holds between two walks of `Independents`: `done` are the commits walked
      from so far and `seen` the commits walked over. */
  ghost predicate Progress(g: Edges, candidates: set<Hash>, seen: set<Hash>, done: set<Hash>) {
    && ClosedUnder(g, seen)
    && (forall s :: s in seen ==> Dominated(g, done, s))
    && (forall f, c :: f in done && c in candidates && c != f ==> !Reaches(g, f, c))
  }

  /** Limiting a walk by `seen` hides no candidate: one that `from` reaches is reached
      by a walk that stops at `seen`. */
  lemma LimitHidesNothing(g: Edges, candidates: set<Hash>, seen: set<Hash>, done: set<Hash>, from: Hash, c: Hash)
    requires Acyclic(g) && Progress(g, candidates, seen, done)
    requires c in candidates && Reaches(g, from, c)
    ensures ReachesUpTo(g, from, c, seen)
  {
    Antisymmetric(g);
    var m := EntersLimit(g, from, c, seen);
    if m != c {
      var f :| f in done && Reaches(g, f, m);
      ReachesTrans(g, f, m, c);
    }
  }

  /** Removing candidates that a remaining one reaches keeps every commit of the list dominated. */
  lemma RemoveKeepsDominated(g: Edges, list: set<Hash>, candidates: set<Hash>, from: Hash, removed: set<Hash>)
    requires AllDominated(g, list, candidates)
    requires from in candidates && from !in removed
    requires forall c :: c in removed ==> Reaches(g, from, c)
    ensures AllDominated(g, list, candidates - removed)
  {
    forall c | c in list && c !in candidates - removed
      ensures Dominated(g, candidates - removed, c)
    {
      if c in removed {
        assert from in candidates - removed;
      } else {
        var o :| o in candidates && Reaches(g, o, c);
        if o in removed {
          ReachesTrans(g, from, o, c);
          assert from in candidates - removed;
        } else {
          assert o in candidates - removed;
        }
      }
    }
  }

  /** Candidates that do not reach each other and dominate the list are its independent commits. */
  lemma IndependentFromDominated(g: Edges, list: seq<Hash>, candidates: set<Hash>)
    requires Acyclic(g) && AllDominated(g, Elements(list), candidates)
    requires forall f, c :: f in candidates && c in candidates && c != f ==> !Reaches(g, f, c)
    ensures forall c :: c in candidates <==> Independent(g, list, c)
  {
    Antisymmetric(g);
    forall c | c in candidates
      ensures Independent(g, list, c)
    {
      assert c in Elements(list);
      forall o | o in list && o != c
        ensures !Reaches(g, o, c)
      {
        if Reaches(g, o, c) && o !in candidates {
          assert o in Elements(list);
          var d :| d in candidates && Reaches(g, d, o);
          ReachesTrans(g, d, o, c);
        }
      }
    }
    forall c | Independent(g, list, c)
      ensures c in candidates
    {
      assert c in Elements(list);
      assert c in candidates || Dominated(g, candidates, c);
    }
  }

  /** The callback of one walk step: drops the visited commit from both lists when it
      is one of the others. */
  method DropVisited(candidates: seq<Hash>, others: seq<Hash>, visited: Hash)
    returns (candidates': seq<Hash>, others': seq<Hash>)
    ensures candidates' == if visited in others then FilterOut(candidates, {visited}) else candidates
    ensures others' == if visited in others then FilterOut(others, {visited}) else others
  {
    candidates', others' := candidates, others;
    for i := 0 to |others|
      invariant candidates' == if visited in others[..i] then FilterOut(candidates, {visited}) else candidates
      invariant others' == if visited in others[..i] then FilterOut(others, {visited}) else others
    {
      if visited == others[i] {
        FilterOutTwice(candidates, {visited}, {visited});
        FilterOutTwice(others, {visited}, {visited});
        assert {visited} + {visited} == {visited};
        candidates' := Remove(candidates', visited);
        others' := Remove(others', visited);
      }
    }
    assert others[..|others|] == others;
  }

  /** The two lists during a walk from `from`: what has been walked over is gone from both. */
  ghost predicate Walking(candidates: seq<Hash>, from: Hash, walked: set<Hash>,
                          candidates': seq<Hash>, others: seq<Hash>)
  {
    && candidates' == FilterOut(candidates, walked - {from})
    && others == FilterOut(candidates, walked + {from})
  }

  lemma {:induction false} WalkingStep(candidates: seq<Hash>, from: Hash, walked: set<Hash>, candidates': seq<Hash>,
                                       others: seq<Hash>, c: Hash)
    requires Walking(candidates, from, walked, candidates', others) && c !in walked
    ensures Walking(candidates, from, walked + {c},
                    if c in others then FilterOut(candidates', {c}) else candidates',
                    if c in others then FilterOut(others, {c}) else others)
  {
    FilterOutMembers(candidates, walked + {from});
    assert Elements(others) == Elements(candidates) - (walked + {from});
    FilterOutTwice(candidates, walked - {from}, {c});
    FilterOutTwice(candidates, walked + {from}, {c});
    assert walked + {from} + {c} == walked + {c} + {from};
    if c in others {
      assert c in Elements(others);
      assert (walked + {c}) - {from} == (walked - {from}) + {c};
    } else if c == from {
      assert (walked + {c}) - {from} == walked - {from} && walked + {c} + {from} == walked + {from};
    } else {
      assert c !in Elements(others) && c !in Elements(candidates);
      FilterOutMembers(candidates, walked - {from});
      FilterOutNone(candidates', {c});
      FilterOutNone(others, {c});
      assert (walked + {c}) - {from} == (walked - {from}) + {c};
    }
  }

  /** One walk from `from`, cut off at what earlier walks have seen.  It removes exactly
      the candidates walked over; it may stop early when one candidate is left. */
  method WalkFrom(g: Edges, candidates: seq<Hash>, seen: set<Hash>, from: Hash)
    returns (ok: bool, candidates': seq<Hash>, seen': set<Hash>, ghost walked: set<Hash>, ghost whole: bool)
    requires from in g
    ensures !ok ==> !CompleteFrom(g, from)
    ensures ok ==> candidates' == FilterOut(candidates, walked - {from})
    ensures ok ==> forall b :: b in walked ==> ReachesUpTo(g, from, b, seen)
    ensures ok && !whole ==> |candidates'| == 1
    ensures ok && whole ==> seen' == seen + walked && Frontier(g, from, seen, {}, walked, {})
  {
    hide NoGap, WholeReach, CompleteFrom, ReachesUpTo;
    var others := Remove(candidates, from);
    candidates', seen', walked, whole := candidates, seen, {}, false;
    FilterOutNone(candidates, {});
    assert {} + {from} == {from} && {} - {from} == {};
    var iter := new FilterCommitIter(g, from, seen);
    if CompleteFrom(g, from) {
      CompleteNoGap(g, from, seen);
    }
    while true
      invariant fresh(iter) && iter.Valid() && iter.g == g && iter.start == from && iter.limit == seen
      invariant walked == iter.walked && seen' == seen + walked
      invariant Walking(candidates, from, walked, candidates', others)
      decreases g.Keys - iter.walked
    {
      var cut := seen';
      var step := iter.Next(_ => true, h => h in cut);
      if step.Missing? {
        return false, candidates', seen', walked, false;
      }
      if step.Done? {
        assert iter.walked == walked;
        return true, candidates', seen', walked, true;
      }
      var c := step.commit;
      assert iter.walked == walked + {c};
      WalkingStep(candidates, from, walked, candidates', others, c);
      candidates', others := DropVisited(candidates', others, c);
      walked := walked + {c};
      if |candidates'| == 1 {
        return true, candidates', seen', walked, false;
      }
      seen' := seen' + {c};
    }
  }

  /** A completed walk leaves the cut-off set closed under parents and the remaining
      candidates unreachable from `from`. */
  lemma WalkKeepsProgress(g: Edges, candidates: set<Hash>, seen: set<Hash>, from: Hash, done: set<Hash>,
                          walked: set<Hash>)
    requires Acyclic(g) && Progress(g, candidates, seen, done)
    requires Frontier(g, from, seen, {}, walked, {})
    ensures Progress(g, candidates - (walked - {from}), seen + walked, done + {from})
  {
    Antisymmetric(g);
    FrontierDone(g, from, seen, {}, walked);
    forall s | s in seen + walked
      ensures Dominated(g, done + {from}, s)
    {
      if s in seen {
        var f :| f in done && Reaches(g, f, s);
        assert f in done + {from};
      } else {
        UpToReaches(g, from, s, seen);
        assert from in done + {from};
      }
    }
    forall c | c in candidates - (walked - {from}) && c != from
      ensures !Reaches(g, from, c)
    {
      if Reaches(g, from, c) {
        LimitHidesNothing(g, candidates, seen, done, from, c);
      }
    }
  }

  /** Exactly the first `pos` candidates have been walked from. */
  ghost predicate WalkedBefore(candidates: seq<Hash>, pos: nat, done: set<Hash>) {
    && pos <= |candidates|
    && Elements(candidates[..pos]) <= done
    && Elements(candidates[pos..]) !! done
  }

  /** Dropping commits other than the current one moves its position by those dropped before it. */
  lemma {:induction false} NextPosition(candidates: seq<Hash>, pos: nat, drop: set<Hash>, done: set<Hash>)
    requires Distinct(candidates) && WalkedBefore(candidates, pos, done)
    requires pos < |candidates| && candidates[pos] !in drop
    ensures var k := |FilterOut(candidates[..pos], drop)|;
            var rest := FilterOut(candidates, drop);
            && k < |rest| && rest[k] == candidates[pos]
            && WalkedBefore(rest, k + 1, done + {candidates[pos]})
  {
    var left, from, right := candidates[..pos], candidates[pos], candidates[pos + 1..];
    var rest, l, r := FilterOut(candidates, drop), FilterOut(left, drop), FilterOut(right, drop);
    assert rest == l + ([from] + r) by {
      assert candidates == left + ([from] + right);
      FilterOutConcat(left, [from] + right, drop);
      assert ([from] + right)[1..] == right;
    }
    assert rest[..|l| + 1] == l + [from];
    assert rest[|l| + 1..] == r;
    FilterOutMembers(left, drop);
    FilterOutMembers(right, drop);
    assert Elements(l + [from]) == Elements(l) + {from};
    assert from !in Elements(r);
    assert Elements(right) <= Elements(candidates[pos..]) by {
      assert candidates[pos..] == [from] + right;
    }
  }

  lemma DistinctIndex(s: seq<Hash>, i: nat, j: nat)
    requires Distinct(s) && i < |s| && j < |s| && s[i] == s[j]
    ensures i == j
  {
  }

  /** The distinct commits of the list that no other commit of the list reaches. */
  method Independents(history: History, commits: seq<Hash>) returns (r: Result<seq<Hash>>)
    requires Acyclic(Parents(history))
    requires forall c :: c in commits ==> c in history
    ensures r.Ok? ==> Distinct(r.value)
    ensures r.Ok? ==> forall c :: c in r.value <==> Independent(Parents(history), commits, c)
    ensures (forall c :: c in commits ==> CompleteFrom(Parents(history), c)) ==> r.Ok?
  {
    var g := Parents(history);
    ghost var list := Elements(commits);
    var candidates := SortByCommitDateDesc(history, commits);
    candidates := RemoveDuplicated(candidates);
    assert Elements(candidates) == list;
    if |candidates| < 2 {
      IndependentFromDominated(g, commits, Elements(candidates));
      return Ok(candidates);
    }
    var seen: set<Hash> := {};
    var pos: nat := 0;
    ghost var done: set<Hash> := {};
    while true
      invariant Distinct(candidates) && pos < |candidates|
      invariant AllDominated(g, list, Elements(candidates))
      invariant Progress(g, Elements(candidates), seen, done)
      invariant WalkedBefore(candidates, pos, done)
      decreases list - done
    {
      var from := candidates[pos];
      assert from in Elements(candidates[pos..]) && from in Elements(candidates);
      var ok, candidates', seen', walked, whole := WalkFrom(g, candidates, seen, from);
      if !ok {
        return NotTraversable;
      }
      ghost var drop := walked - {from};
      forall c | c in drop ensures Reaches(g, from, c) {
        UpToReaches(g, from, c, seen);
      }
      RemoveKeepsDominated(g, list, Elements(candidates), from, Elements(candidates) * drop);
      FilterOutMembers(candidates, drop);
      assert Elements(candidates') == Elements(candidates) - Elements(candidates) * drop == Elements(candidates) - drop;
      NextPosition(candidates, pos, drop, done);
      var next := IndexOf(candidates', from);
      DistinctIndex(candidates', next, |FilterOut(candidates[..pos], drop)|);
      next := next + 1;
      if whole {
        WalkKeepsProgress(g, Elements(candidates), seen, from, done, walked);
      }
      candidates, seen, done := candidates', seen', done + {from};
      if next >= |candidates| {
        assert candidates[..next] == candidates;
        IndependentFromDominated(g, commits, Elements(candidates));
        return Ok(candidates);
      }
      pos := next;
    }
  }

  // --- MergeBase --------------------------------------------------------------

  ghost predicate CommonAncestor(g: Edges, a: Hash, b: Hash, x: Hash) {
    Reaches(g, a, x) && Reaches(g, b, x)
  }

  /** A common ancestor that no other common ancestor reaches. */
  ghost predicate BestCommonAncestor(g: Edges, a: Hash, b: Hash, x: Hash) {
    && CommonAncestor(g, a, b, x)
    && forall y :: CommonAncestor(g, a, b, y) && y != x ==> !Reaches(g, y, x)
  }

  /** The best common ancestors of two commits do not depend on their order. */
  lemma BestCommonAncestorSymmetric(g: Edges, a: Hash, b: Hash)
    ensures forall x :: BestCommonAncestor(g, a, b, x) <==> BestCommonAncestor(g, b, a, x)
  {
    assert forall y :: CommonAncestor(g, a, b, y) <==> CommonAncestor(g, b, a, y);
  }

  /** `ancestorsIndex`: the ancestors of `starting`, or `None` when `excluded` is one of them. */
  datatype AncestorsIndex = Index(hashes: set<Hash>) | IsReachable | Untraversable

  method ComputeAncestorsIndex(history: History, excluded: Hash, starting: Hash) returns (r: AncestorsIndex)
    requires starting in history
    ensures r.Untraversable? ==> !CompleteFrom(Parents(history), starting)
    ensures r.IsReachable? ==> Reaches(Parents(history), starting, excluded)
    ensures r.Index? ==> excluded !in r.hashes
    ensures r.Index? ==> forall x :: x in r.hashes <==> Reaches(Parents(history), starting, x)
  {
    var g := Parents(history);
    if excluded == starting {
      ReachesSelf(g, starting);
      return IsReachable;
    }
    var startingHistory: set<Hash> := {};
    var iter := new BfsCommitIter(g, starting, {}, []);
    while true
      invariant fresh(iter) && iter.Valid() && iter.g == g && iter.start == starting && iter.skipped == {}
      invariant startingHistory == iter.visited && startingHistory <= g.Keys
      invariant excluded !in startingHistory
      decreases g.Keys - startingHistory
    {
      var step := iter.Next();
      if step.Missing? {
        return Untraversable;
      }
      if step.Done? {
        forall x ensures x in startingHistory <==> Reaches(g, starting, x) {
          NoLimit(g, starting, x);
        }
        return Index(startingHistory);
      }
      if step.commit == excluded {
        NoLimit(g, starting, excluded);
        return IsReachable;
      }
      startingHistory := startingHistory + {step.commit};
    }
  }

  /** What the second walk of `MergeBase` collects: where walks from `older` first enter
      the history of `newer`. */
  ghost predicate Entry(g: Edges, older: Hash, index: set<Hash>, x: Hash) {
    x in index && ReachesUpTo(g, older, x, index)
  }

  /** Every common ancestor is reached from an entry, and every entry is a common ancestor. */
  lemma EntryAbove(g: Edges, older: Hash, newer: Hash, index: set<Hash>, x: Hash) returns (m: Hash)
    requires forall h :: h in index <==> Reaches(g, newer, h)
    requires CommonAncestor(g, older, newer, x)
    ensures Entry(g, older, index, m) && Reaches(g, m, x)
  {
    m := EntersLimit(g, older, x, index);
  }

  lemma EntryIsCommon(g: Edges, older: Hash, newer: Hash, index: set<Hash>, x: Hash)
    requires forall h :: h in index <==> Reaches(g, newer, h)
    requires Entry(g, older, index, x)
    ensures CommonAncestor(g, older, newer, x)
  {
    UpToReaches(g, older, x, index);
  }

  /** The independent entries are the best common ancestors. */
  lemma IndependentEntries(g: Edges, older: Hash, newer: Hash, index: set<Hash>, entries: seq<Hash>)
    requires Acyclic(g)
    requires forall h :: h in index <==> Reaches(g, newer, h)
    requires forall x :: x in entries <==> Entry(g, older, index, x)
    ensures forall x :: Independent(g, entries, x) <==> BestCommonAncestor(g, older, newer, x)
  {
    Antisymmetric(g);
    forall x | Independent(g, entries, x)
      ensures BestCommonAncestor(g, older, newer, x)
    {
      EntryIsCommon(g, older, newer, index, x);
      forall y | CommonAncestor(g, older, newer, y) && y != x
        ensures !Reaches(g, y, x)
      {
        if Reaches(g, y, x) {
          var m := EntryAbove(g, older, newer, index, y);
          ReachesTrans(g, m, y, x);
        }
      }
    }
    forall x | BestCommonAncestor(g, older, newer, x)
      ensures Independent(g, entries, x)
    {
      var m := EntryAbove(g, older, newer, index, x);
      EntryIsCommon(g, older, newer, index, m);
      assert m == x;
      forall o | o in entries && o != x
        ensures !Reaches(g, o, x)
      {
        EntryIsCommon(g, older, newer, index, o);
      }
    }
  }

  /** The walk from `older` that collects the entries.  Its error is dropped by the source, so
      the list is too short when an entry lies behind commits that lack a parent. */
  method CollectEntries(g: Edges, older: Hash, index: set<Hash>) returns (res: seq<Hash>)
    requires older in g
    ensures forall x :: x in res ==> Entry(g, older, index, x) && x in g && ReachesUpTo(Whole(g), older, x, index)
    ensures NoGap(g, older, index) ==> forall x :: x in res <==> Entry(g, older, index, x)
  {
    res := [];
    var iter := new FilterCommitIter(g, older, index);
    while true
      invariant fresh(iter) && iter.Valid() && iter.g == g && iter.start == older && iter.limit == index
      invariant forall x :: x in res <==> x in iter.walked && x in index
      decreases g.Keys - iter.walked
    {
      var step := iter.Next(h => h in index, h => h in index);
      if step.Missing? {
        return;
      }
      if step.Done? {
        iter.WalkedExactly();
        return;
      }
      res := res + [step.commit];
    }
  }

  /** Without repetitions, exactly the best common ancestors, whatever the commit dates are, if
      the walk from the older commit meets no commit that lacks a parent; otherwise those behind
      such commits are missed.  A gap in the history of the newer commit is the only reason to
      fail. */
  method MergeBaseOf(history: History, c: Hash, other: Hash) returns (r: Result<seq<Hash>>)
    requires Acyclic(Parents(history))
    requires c in history && other in history
    ensures r.Ok? ==> Distinct(r.value)
    ensures r.Ok? ==> forall x :: x in r.value ==> CommonAncestor(Parents(history), c, other, x)
    ensures r.Ok? ==> forall x, y :: x in r.value && y in r.value && x != y ==> !Reaches(Parents(history), x, y)
    ensures CompleteFrom(Parents(history), c) && CompleteFrom(Parents(history), other) ==>
              r.Ok? && forall x :: x in r.value <==> BestCommonAncestor(Parents(history), c, other, x)
    ensures history[c].when > history[other].when ==> OlderDecides(Parents(history), other, c, r)
    ensures history[c].when < history[other].when ==> OlderDecides(Parents(history), c, other, r)
  {
    var g := Parents(history);
    var sorted := SortByCommitDateDesc(history, [c, other]);
    PairPermutation(c, other, sorted);
    var newer, older := sorted[0], sorted[1];
    BestCommonAncestorSymmetric(g, c, other);
    var index := ComputeAncestorsIndex(history, older, newer);
    if index.IsReachable? {
      OlderIsBest(g, older, newer);
      assert BestCommonAncestor(g, older, newer, older);
      ReachesSelf(Whole(g), older);
      return Ok([older]);
    }
    if index.Untraversable? {
      return NotTraversable;
    }
    var res := CollectEntries(g, older, index.hashes);
    forall x | x in res
      ensures CommonAncestor(g, older, newer, x) && Reaches(Whole(g), older, x)
      ensures CompleteFrom(g, newer) ==> CompleteFrom(g, x)
    {
      EntryIsCommon(g, older, newer, index.hashes, x);
      UpToReaches(Whole(g), older, x, index.hashes);
      CompleteBelow(g, newer, x);
    }
    GapBefore(g, older, newer, index.hashes);
    if CompleteFrom(g, older) {
      CompleteNoGap(g, older, index.hashes);
    }
    if NoGap(g, older, index.hashes) {
      IndependentEntries(g, older, newer, index.hashes, res);
    }
    r := Independents(history, res);
  }

  lemma GapBefore(g: Edges, older: Hash, newer: Hash, index: set<Hash>)
    requires forall h :: h in index <==> Reaches(g, newer, h)
    ensures NoGap(g, older, index) <==> NoGapBefore(g, older, newer)
  {
    hide Reaches, Passable, PathFromTo;
    forall c ensures ReachesUpTo(g, older, c, index) <==> ReachesBefore(g, older, newer, c) {
      if ReachesUpTo(g, older, c, index) {
        var p :| PathFromTo(g, p, older, c) && Avoids(p, index);
        assert forall i :: 0 <= i < |p| - 1 ==> !Reaches(g, newer, p[i]);
      }
      if ReachesBefore(g, older, newer, c) {
        var p :| PathFromTo(g, p, older, c) && forall i :: 0 <= i < |p| - 1 ==> !Reaches(g, newer, p[i]);
        assert Avoids(p, index);
      }
    }
  }

  /** Commit 2 lacks a parent; its other parent, 3, is also that of commit 1.  The merge base of
      1 and 2 is 3, but none is found, and no error is reported. */
  method MissedBase() returns (history: History, r: Result<seq<Hash>>)
    ensures r == Ok([]) && BestCommonAncestor(Parents(history), 1, 2, 3)
  {
    history := map[1 := Commit([3], 10), 2 := Commit([9, 3], 5), 3 := Commit([], 1)];
    var g := Parents(history);
    MissedFacts(history, g);
    hide Reaches, BestCommonAncestor, CompleteFrom, Acyclic, Whole;
    r := MergeBaseOf(history, 1, 2);
    FirstMember(r.value);
  }

  lemma FirstMember(s: seq<Hash>)
    ensures s == [] || s[0] in s
  {
  }

  /** What the result says when the history of `newer` is there: all best common ancestors if the
      walk from `older` meets no gap, and in any case none that it cannot get to. */
  ghost predicate OlderDecides(g: Edges, older: Hash, newer: Hash, r: Result<seq<Hash>>) {
    CompleteFrom(g, newer) ==>
      && r.Ok?
      && (forall x :: x in r.value ==> Reaches(Whole(g), older, x))
      && (NoGapBefore(g, older, newer) ==> forall x :: x in r.value <==> BestCommonAncestor(g, older, newer, x))
  }

  /** No commit lacks a parent on the way from `older` into the history of `newer`. */
  ghost predicate NoGapBefore(g: Edges, older: Hash, newer: Hash) {
    forall c :: ReachesBefore(g, older, newer, c) && !Reaches(g, newer, c) ==> Passable(g, c)
  }

  ghost predicate ReachesBefore(g: Edges, older: Hash, newer: Hash, c: Hash) {
    exists p :: PathFromTo(g, p, older, c) && forall i :: 0 <= i < |p| - 1 ==> !Reaches(g, newer, p[i])
  }

  lemma PairPermutation(a: Hash, b: Hash, s: seq<Hash>)
    requires multiset(s) == multiset([a, b])
    ensures s == [a, b] || s == [b, a]
  {
    assert |s| == |multiset(s)| == 2;
    assert s == [s[0], s[1]];
    assert s[0] in multiset(s) && s[1] in multiset(s);
    assert multiset(s)[a] == multiset([a, b])[a];
  }

  lemma CompleteBelow(g: Edges, a: Hash, b: Hash)
    requires Reaches(g, a, b)
    ensures CompleteFrom(g, a) ==> CompleteFrom(g, b)
  {
    forall x | Reaches(g, b, x)
      ensures Reaches(g, a, x)
    {
      ReachesTrans(g, a, b, x);
    }
  }

  lemma OlderIsBest(g: Edges, older: Hash, newer: Hash)
    requires Acyclic(g) && Reaches(g, newer, older)
    ensures forall x :: x == older <==> BestCommonAncestor(g, older, newer, x)
  {
    Antisymmetric(g);
    ReachesSelf(g, older);
    assert CommonAncestor(g, older, newer, older);
  }

  lemma MissedFacts(history: History, g: Edges)
    requires history == map[1 := Commit([3], 10), 2 := Commit([9, 3], 5), 3 := Commit([], 1)] && g == Parents(history)
    ensures Acyclic(g) && CompleteFrom(g, 1) && BestCommonAncestor(g, 1, 2, 3)
    ensures forall x :: Reaches(Whole(g), 2, x) ==> !CommonAncestor(g, 1, 2, x)
  {
    hide Reaches, Whole;
    assert g == map[1 := [3], 2 := [9, 3], 3 := []];
    MissedReach(g);
    MissedWhole(g);
    assert forall a, b :: Edge(g, a, b) ==> b == 3 || b == 9;
  }

  lemma MissedReach(g: Edges)
    requires g == map[1 := [3], 2 := [9, 3], 3 := []]
    ensures Reaches(g, 1, 3) && Reaches(g, 2, 3)
    ensures forall x :: Reaches(g, 3, x) ==> x == 3
    ensures forall x :: Reaches(g, 9, x) ==> x == 9
    ensures forall x :: Reaches(g, 1, x) ==> x == 1 || x == 3
    ensures forall x :: Reaches(g, 2, x) ==> x == 2 || x == 3 || x == 9
  {
    hide Reaches;
    assert g[1][0] == 3 && g[2][1] == 3;
    ReachesEdge(g, 1, 3);
    ReachesEdge(g, 2, 3);
    OnlyReaches(g, 3, {3});
    OnlyReaches(g, 9, {9});
    OnlyReaches(g, 1, {1, 3});
    OnlyReaches(g, 2, {2, 3, 9});
  }

  lemma MissedWhole(g: Edges)
    requires g == map[1 := [3], 2 := [9, 3], 3 := []]
    ensures forall x :: Reaches(Whole(g), 2, x) ==> x == 2
  {
    hide Reaches;
    assert g[2][0] == 9 && 9 in g[2] && 9 !in g;
    assert !Passable(g, 2);
    OnlyReaches(Whole(g), 2, {2});
  }

  lemma OnlyReaches(g: Edges, a: Hash, s: set<Hash>)
    requires a in s && ClosedUnder(g, s)
    ensures forall b :: Reaches(g, a, b) ==> b in s
  {
    forall b | Reaches(g, a, b) ensures b in s {
      ClosedReaches(g, s, a, b);
    }
  }
}
