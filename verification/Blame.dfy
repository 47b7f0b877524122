/** blame.go: the run itself.

    `Blame` pops the items of one commit at a time, merges them, asks the parents, and
    hands answers back through suspended items until the first item has all of its own. */
module Blame {
  import opened Graph
  import opened BlameHistory
  import opened BlameNeeds
  import opened BlamePreference
  import opened BlameState
  import opened BlameSteps
  import opened BlameAsk
  import opened BlameMoves
  import opened Wrappers

  /** The first item asks about every line of the file at the starting commit. */
  ghost predicate Root(h: History, start: Hash, items: seq<Item>) {
    && HasFile(h, start)
    && |items| > 0 && items[0].commit == start
    && |items[0].needs| == |Lines(h, start)|
    && forall i :: 0 <= i < |items[0].needs| ==> items[0].needs[i].cur == i
  }

  ghost predicate RootDone(h: History, start: Hash, items: seq<Item>) {
    && Root(h, start, items)
    && (forall i :: 0 <= i < |items[0].needs| ==>
          items[0].needs[i].commit.Some? && Blamed(h, Place(start, i), items[0].needs[i].commit.value))
    && Credited(h, start, start, items[0].needs)
  }

  /** The answers name the commits to be credited, if the history keeps the preference. */
  ghost predicate Credited(h: History, start: Hash, commit: Hash, r: seq<LineMap>)
    requires HasFile(h, commit)
  {
    Safe(h, start) ==>
      forall i :: 0 <= i < |r| && r[i].commit.Some? ==> r[i].commit.value == Preferred(h, commit, r[i].cur)
  }

  lemma RootKept(h: History, start: Hash, a: seq<Item>, b: seq<Item>)
    requires Root(h, start, a) && SameItems(a, b)
    ensures Root(h, start, b)
  {
    assert SameItem(a[0], b[0]);
  }

  lemma SameItemsTrans(a: seq<Item>, b: seq<Item>, c: seq<Item>)
    requires SameItems(a, b) && SameItems(b, c)
    ensures SameItems(a, c)
  {
    forall x | 0 <= x < |a| ensures SameItem(a[x], c[x]) {
      assert SameItem(a[x], b[x]) && SameItem(b[x], c[x]);
    }
  }

  lemma UpdateSameItems(items: seq<Item>, x: nat, it: Item)
    requires x < |items| && SameItem(items[x], it)
    ensures SameItems(items, items[x := it])
  {
    forall y | 0 <= y < |items| ensures SameItem(items[y], items[x := it][y]) {
    }
  }

  /** The loop of `finishNeeds` over the lines nobody else answered for. */
  method FinishLines(needs: seq<LineMap>, commit: Hash) returns (r: seq<LineMap>)
    ensures r == Finish(needs, commit) && SameLines(r, needs) && Resolved(r)
    ensures forall i :: 0 <= i < |r| ==> r[i].commit == if needs[i].commit.Some? then needs[i].commit else Some(commit)
  {
    r := needs;
    for i := 0 to |needs|
      invariant SameLines(r, needs)
      invariant forall j :: 0 <= j < i ==> r[j] == Finish(needs, commit)[j]
      invariant forall j :: i <= j < |r| ==> r[j] == needs[j]
    {
      if r[i].commit.None? {
        r := r[i := r[i].(commit := Some(commit), fromParentNo := -1)];
      }
    }
  }

  /** A line for which nothing is outstanding: an answer it has is from the first source with the
      line, and without one the commit introduced it. */
  lemma {:induction false} LineFinished(h: History, start: Hash, commit: Hash, l: LineMap)
    requires Acyclic(Parents(h)) && HasFile(h, commit)
    requires l.commit.Some? ==> RightFrom(h, start, commit, l.cur, l.fromParentNo, l.commit.value)
    requires forall k: nat :: k < |Sources(h, commit)| && MatchAt(h, commit, k, l.cur).Some? ==>
               l.commit.Some? && l.fromParentNo <= k
    ensures l.commit.None? ==> Introduced(h, Place(commit, l.cur))
    ensures Safe(h, start) ==> Preferred(h, commit, l.cur) == if l.commit.Some? then l.commit.value else commit
  {
    hide LineMatch, Preferred, Safe;
    var k := if l.commit.Some? then l.fromParentNo else |Sources(h, commit)|;
    assert forall i :: 0 <= i < k ==> MatchAt(h, commit, i, l.cur).None?;
    PreferredIs(h, commit, l.cur, k);
    if l.commit.None? {
      forall p | p in h.commits[commit].parents && HasFile(h, p) ensures LineMatch(h, commit, p, l.cur).None? {
        var i :| 0 <= i < |Sources(h, commit)| && Sources(h, commit)[i] == p;
        assert MatchAt(h, commit, i, l.cur).None?;
      }
    }
  }

  /** Once nothing is outstanding, what is left was introduced by the item's own commit. */
  lemma FinishedRight(h: History, s: State, x: nat, r: seq<LineMap>)
    requires Inv(h, s, {x}) && x in s.live && x !in s.waiting && s.items[x].pending == 0 && Covered(h, s, x)
    requires SameLines(r, s.items[x].needs) && HasFile(h, s.items[x].commit)
    requires forall i :: 0 <= i < |r| ==>
               r[i].commit == if s.items[x].needs[i].commit.Some? then s.items[x].needs[i].commit else Some(s.items[x].commit)
    ensures NeedsOk(h, s.items[x].commit, r) && Credited(h, s.items[0].commit, s.items[x].commit, r)
  {
    hide CountInv, BusyInv, WaitInv, Covered, Safe, Preferred, RightFrom, Blamed, ContOk, LineMatch;
    var it, start := s.items[x], s.items[0].commit;
    assert ItemOk(h, s.items, x);
    forall i | 0 <= i < |r|
      ensures Blamed(h, Place(it.commit, r[i].cur), r[i].commit.value)
      ensures Safe(h, start) ==> r[i].commit.value == Preferred(h, it.commit, r[i].cur)
    {
      NothingAwaited(h, s, x, i);
      LineFinished(h, start, it.commit, it.needs[i]);
      if it.needs[i].commit.None? {
        BlamedSelf(h, Place(it.commit, r[i].cur));
      }
    }
  }

  /** Answers that are right for the child they are meant for. */
  ghost predicate Answers(h: History, start: Hash, child: Hash, needs: seq<LineMap>, identical: bool, no: int) {
    && HasFile(h, child)
    && forall i :: 0 <= i < |needs| ==>
         && needs[i].commit.Some? && Blamed(h, Place(child, Key(needs[i], identical)), needs[i].commit.value)
         && RightFrom(h, start, child, Key(needs[i], identical), no, needs[i].commit.value)
  }

  /** A finished item's answers, handed to one of its children. */
  lemma FinishedAnswers(h: History, items: seq<Item>, it: Item, r: seq<LineMap>, c: Cont, part: seq<LineMap>)
    requires ContOk(h, items, it, c) && HasFile(h, it.commit) && NeedsOk(h, it.commit, r) && Resolved(r)
    requires Credited(h, items[0].commit, it.commit, r)
    requires SameLines(part, c.needs)
    requires forall p :: 0 <= p < |part| ==> AnsweredBy(part[p], r)
    ensures Answers(h, items[0].commit, items[c.child].commit, part, c.identical, c.parentNo)
  {
    hide Safe, Preferred, Blamed, Carried, LineMatch, SameReach, Twin;
    forall i | 0 <= i < |part|
      ensures part[i].commit.Some?
      ensures RightFrom(h, items[0].commit, items[c.child].commit, Key(part[i], c.identical), c.parentNo, part[i].commit.value)
      ensures Blamed(h, Place(items[c.child].commit, Key(part[i], c.identical)), part[i].commit.value)
    {
      assert AnsweredBy(part[i], r);
      var m :| 0 <= m < |r| && r[m].cur == part[i].cur && r[m].commit == part[i].commit;
      assert Key(part[i], c.identical) == Key(c.needs[i], c.identical);
      BlamedThrough(h, Place(items[c.child].commit, Key(part[i], c.identical)), Place(it.commit, part[i].cur),
                    part[i].commit.value);
    }
  }

  /** Applying right answers leaves the child's answers right, and its lines the same. */
  lemma AppliedRight(h: History, start: Hash, commit: Hash, child: seq<LineMap>, r: seq<LineMap>, needs: seq<LineMap>,
                     identical: bool, parentNo: int)
    requires HasFile(h, commit) && NeedsOk(h, commit, child) && Held(h, start, commit, child)
    requires Answers(h, start, commit, needs, identical, parentNo)
    requires |r| == |child| && forall j :: 0 <= j < |child| ==> Applied(child[j], r[j], needs, identical, parentNo)
    ensures NeedsOk(h, commit, r) && Held(h, start, commit, r)
    ensures forall x: nat :: Entered(child, r, Out(x, Keys(needs, identical), parentNo))
  {
    hide RightFrom, Blamed;
    forall j | 0 <= j < |r|
      ensures r[j].cur == child[j].cur && r[j].orig == child[j].orig
      ensures r[j].commit.Some? ==> Blamed(h, Place(commit, r[j].cur), r[j].commit.value)
      ensures r[j].commit.Some? ==> RightFrom(h, start, commit, r[j].cur, r[j].fromParentNo, r[j].commit.value)
      ensures r[j].cur in Keys(needs, identical) ==> r[j].commit.Some? && r[j].fromParentNo <= parentNo
      ensures child[j].commit.Some? ==> r[j].commit.Some? && r[j].fromParentNo <= child[j].fromParentNo
    {
      assert Applied(child[j], r[j], needs, identical, parentNo);
      if child[j].cur in Keys(needs, identical) {
        var i :| 0 <= i < |needs| && Key(needs[i], identical) == child[j].cur
                 && r[j] == Answer(child[j], needs[i].commit, parentNo);
      }
    }
  }

  /** A finished item: all its lines are attributed, and it knows whom to tell. */
  ghost predicate CanAnswer(h: History, items: seq<Item>, it: Item, r: seq<LineMap>) {
    && HasFile(h, it.commit) && NeedsOk(h, it.commit, r) && Resolved(r) && SameLines(r, it.needs)
    && items != [] && Credited(h, items[0].commit, it.commit, r)
    && Conts(it) != []
    && forall i :: 0 <= i < |Conts(it)| ==> ContOk(h, items, it, Conts(it)[i])
  }

  lemma StillAnswers(h: History, a: seq<Item>, b: seq<Item>, it: Item, r: seq<LineMap>)
    requires CanAnswer(h, a, it, r) && SameItems(a, b)
    ensures CanAnswer(h, b, it, r)
  {
    hide NeedsOk, ContOk, Safe, Preferred;
    assert SameItem(a[0], b[0]);
    forall i | 0 <= i < |Conts(it)| ensures ContOk(h, b, it, Conts(it)[i]) {
      SameItemsContOk(h, a, b, it, it, i);
    }
  }

  lemma StillCanAnswer(h: History, a: seq<Item>, b: seq<Item>, x: nat, r: seq<LineMap>)
    requires x < |a| && x != 0 && ItemOk(h, a, x) && SameItems(a, b)
    requires NeedsOk(h, a[x].commit, r) && Resolved(r) && SameLines(r, a[x].needs)
    requires Credited(h, a[0].commit, a[x].commit, r)
    ensures CanAnswer(h, b, a[x], r)
  {
    StillAnswers(h, a, b, a[x], r);
  }

  lemma SameItemsSelf(items: seq<Item>)
    ensures SameItems(items, items)
  {
  }

  lemma ReadyToScatter(h: History, items: seq<Item>, it: Item, r: seq<LineMap>, i: nat)
    requires CanAnswer(h, items, it, r) && i < |Conts(it)|
    ensures Increasing(Conts(it)[i].needs) && Increasing(r) && Curs(Conts(it)[i].needs) <= Curs(r)
  {
    assert ContOk(h, items, it, Conts(it)[i]);
    SameLinesKeys(r, it.needs, true);
  }

  /** The `i`-th child of a finished item can be given its part of the answers. */
  lemma ReadyToAnswer(h: History, items: seq<Item>, it: Item, r: seq<LineMap>, i: nat, part: seq<LineMap>)
    requires CanAnswer(h, items, it, r) && i < |Conts(it)|
    requires if it.merged == [] then part == r
             else SameLines(part, Conts(it)[i].needs) && forall p :: 0 <= p < |part| ==> AnsweredBy(part[p], r)
    ensures var c := Conts(it)[i];
            && c.child < |items|
            && Outs(it)[i] == Out(c.child, Keys(part, c.identical), c.parentNo)
            && Answers(h, items[0].commit, items[c.child].commit, part, c.identical, c.parentNo)
            && (if c.identical then SameLines(part, items[c.child].needs) else part != [] && IncreasingOrig(part))
  {
    hide NeedsOk, Stands, Carried, Answers, Credited;
    var c := Conts(it)[i];
    assert ContOk(h, items, it, c);
    SameLinesKeys(part, c.needs, c.identical);
    forall p | 0 <= p < |part| ensures AnsweredBy(part[p], r) {
      if it.merged == [] {
        assert r[p].cur == part[p].cur && r[p].commit == part[p].commit;
      }
    }
    FinishedAnswers(h, items, it, r, c, part);
  }

  /** A finished item with one child, which asked the same. */
  ghost predicate PlainAnswer(it: Item, items: seq<Item>, r: seq<LineMap>) {
    && it.merged == [] && it.identical && it.child.Some? && it.child.value < |items|
    && |items[it.child.value].needs| == |r|
  }

  /** A merged needs map stays within the file. */
  lemma MergedInRange(h: History, commit: Hash, a: seq<LineMap>, b: seq<LineMap>, r: seq<LineMap>)
    requires HasFile(h, commit) && NeedsOk(h, commit, a) && NeedsOk(h, commit, b)
    requires Increasing(r) && Unresolved(r) && Curs(r) == Curs(a) + Curs(b)
    ensures NeedsOk(h, commit, r)
  {
    forall i | 0 <= i < |r| ensures r[i].cur < |Lines(h, commit)| {
      KeyOf(r, true, i);
      if r[i].cur in Curs(a) {
        var j :| 0 <= j < |a| && Key(a[j], true) == r[i].cur;
      } else {
        var j :| 0 <= j < |b| && Key(b[j], true) == r[i].cur;
      }
    }
    if r == [] && a != [] {
      KeyOf(a, true, 0);
    }
  }

  /** Only the first item has no child, and it is alone in asking about its commit. */
  lemma GroupMergeable(h: History, s: State, start: Hash, cur: seq<nat>)
    requires Shape(s) && ItemsInv(h, s) && |cur| > 1 && Separate(cur, |s.items|)
    requires forall j :: 0 <= j < |cur| ==> cur[j] in s.waiting
    requires forall j :: 0 <= j < |cur| ==> s.items[cur[j]].commit == s.items[cur[0]].commit
    requires forall j :: 0 <= j < |cur| ==> s.items[cur[j]].merged == []
    ensures Mergeable(s, cur)
  {
    forall j | 0 <= j < |cur| ensures s.items[cur[j]].child.Some? {
      assert ItemOk(h, s.items, cur[j]);
      assert ItemOk(h, s.items, cur[if j == 0 then 1 else 0]);
    }
  }

  lemma FirstKept(h: History, s: State, start: Hash, cur: seq<nat>, child: nat) returns (t: State)
    requires Inv(h, s, {}) && Quiet(s) && Root(h, start, s.items) && AskTheSame(s, cur, child) && |cur| > 1
    ensures Inv(h, t, {}) && Quiet(t) && Root(h, start, t.items) && t.live <= s.live
    ensures cur[0] in t.waiting && t.waiting == s.waiting - Rest(cur)
    ensures t.items == s.items[child := s.items[child].(pending := s.items[child].pending - |cur| + 1)]
                              [cur[0] := s.items[cur[0]].(parentNo := LowestNo(s.items, cur, |cur|))]
    ensures t.items[cur[0]].parentNo >= 0 && Collapsible(h, t.items[child].commit, t.items[cur[0]].parentNo)
  {
    hide Acyclic, ItemsInv, CountInv, BusyInv, WaitInv, Collapsible, ItemOk, ContOk, LowestNo, SameLines;
    t := DropMany(h, s, cur, child);
    assert cur[..|cur|] == cur && cur[0] !in Rest(cur);
    GroupCollapses(h, s, cur, child);
    var _ := IdenticalOuts(h, s, cur[0]);
  }

  /** Passing over a relay: everything a method needs to know of it. */
  lemma RelayedSteady(h: History, start: Hash, s: State, x: nat, child: nat)
    requires Inv(h, s, {}) && Quiet(s) && Root(h, start, s.items)
    requires x in s.waiting && s.items[x].identical && s.items[x].child == Some(child)
    requires child in s.live && child !in s.waiting && s.items[child].identical && s.items[child].pending == 1
    requires s.items[x].parentNo >= 0 && Collapsible(h, s.items[child].commit, s.items[x].parentNo)
    ensures Inv(h, Relayed(s, x, child), {}) && Quiet(Relayed(s, x, child)) && Root(h, start, Relayed(s, x, child).items)
    ensures child != 0 && x != child && s.items[x].merged == [] && s.items[child].child.Some?
    ensures var far := s.items[child].child.value;
            && far in s.live && far !in s.waiting && far != child && far < |s.items| && s.items[child].parentNo >= 0
            && Collapsible(h, s.items[far].commit, s.items[child].parentNo)
  {
    hide Acyclic, ItemsInv, CountInv, BusyInv, WaitInv, Collapsible;
    RelayStep(h, s, x, child);
  }

  /** The same for an item that steps aside. */
  lemma PassedOnSteady(h: History, start: Hash, s: State, x: nat, p: Hash, queue: seq<nat>)
    requires Inv(h, s, {x}) && Quiet(s) && Root(h, start, s.items) && Parts(s.items, s.waiting, queue, [])
    requires Expandable(h, s, x) && x !in s.waiting && x != 0 && s.items[x].identical && s.items[x].pending == 0
    requires HasFile(h, s.items[x].commit) && ParentOf(h, s.items[x].commit, p)
    requires Sources(h, s.items[x].commit) == [p] && Lines(h, p) == Lines(h, s.items[x].commit)
    ensures var t := PassedOn(s, x, RelayedQuestion(s.items[x], p));
            && Inv(h, t, {}) && Quiet(t) && Root(h, start, t.items)
            && Parts(t.items, t.waiting, queue + [|s.items|], [])
  {
    hide Acyclic, ItemsInv, CountInv, BusyInv, WaitInv, Fresh, Sources, DiffSpellsOutTexts, Unresolved;
    var it := RelayedQuestion(s.items[x], p);
    RelayedQuestionFresh(h, s, x, p);
    PassOnStep(h, s, x, it);
    var queue' := queue + [|s.items|];
    assert forall y :: y in queue' <==> y in queue || y == |s.items|;
  }

  lemma GroupGathered(h: History, s: State, start: Hash, cur: seq<nat>, needs: seq<LineMap>) returns (t: State)
    requires Inv(h, s, {}) && Quiet(s) && Root(h, start, s.items) && Mergeable(s, cur) && Unresolved(needs)
    requires forall j :: 0 <= j < |cur| ==> Curs(s.items[cur[j]].needs) <= Curs(needs)
    requires HasFile(h, s.items[cur[0]].commit) && NeedsOk(h, s.items[cur[0]].commit, needs)
    ensures Inv(h, t, {}) && Quiet(t) && Root(h, start, t.items) && t.live <= s.live
    ensures cur[0] in t.waiting && t.waiting == s.waiting - Rest(cur)
    ensures t.items == s.items[cur[0] := s.items[cur[0]].(merged := MergedConts(s.items, cur), needs := needs,
                                                          identical := false, child := None)]
  {
    hide CountInv, BusyInv, WaitInv;
    GatherStep(h, s, cur, needs);
    t := Gathered(s, cur, needs);
    MergeableRows(h, s, cur);
    RestExcludesFirst(s, cur);
  }

  lemma IncompleteAbove(h: History, start: Hash, c: Hash)
    requires Reaches(Parents(h), start, c) && !CompleteFrom(Parents(h), c)
    ensures !CompleteFrom(Parents(h), start)
  {
    var b :| Reaches(Parents(h), c, b) && b !in Parents(h);
    ReachesTrans(Parents(h), start, c, b);
  }

  lemma ParentMissing(h: History, c: Hash, p: Hash)
    requires c in h.commits && p in h.commits[c].parents && p !in h.commits
    ensures !CompleteFrom(Parents(h), c)
  {
    ReachesEdge(Parents(h), c, p);
  }

  lemma {:induction false} WithFileNone(h: History, parents: seq<Hash>)
    ensures WithFile(h, parents[..0]) == []
  {
  }

  lemma {:induction false} WithFileNext(h: History, parents: seq<Hash>, i: nat)
    requires i < |parents|
    ensures WithFile(h, parents[..i + 1]) == WithFile(h, parents[..i]) + if HasFile(h, parents[i]) then [parents[i]] else []
  {
    assert parents[..i + 1][..i] == parents[..i];
  }

  /** Waiting items, each of which has one child, and none of them twice. */
  ghost predicate PlainList(items: seq<Item>, waiting: set<nat>, list: seq<nat>) {
    && (forall i :: 0 <= i < |list| ==> list[i] in waiting && list[i] < |items| && items[list[i]].merged == [])
    && (forall i, j :: 0 <= i < j < |list| ==> list[i] != list[j])
  }

  /** The waiting items, split into the queued ones and a group about one commit. */
  ghost predicate Parts(items: seq<Item>, waiting: set<nat>, queue: seq<nat>, cur: seq<nat>) {
    && PlainList(items, waiting, queue) && PlainList(items, waiting, cur)
    && (forall j :: 0 <= j < |cur| ==> items[cur[j]].commit == items[cur[0]].commit)
    && (forall x :: x in waiting ==> x in queue || x in cur)
    && (forall i :: 0 <= i < |queue| ==> queue[i] !in cur)
  }

  function Removed(queue: seq<nat>, k: nat): (r: seq<nat>)
    requires k < |queue|
    ensures |r| == |queue| - 1
    ensures forall i :: 0 <= i < |r| ==> r[i] == queue[if i < k then i else i + 1]
    ensures forall i :: 0 <= i < |queue| && i != k ==> queue[i] in r
  {
    var r := queue[..k] + queue[k + 1..];
    assert forall i :: 0 <= i < |queue| && i != k ==> queue[i] == r[if i < k then i else i - 1];
    r
  }

  /** Moving the `k`-th queued item into the group. */
  lemma PopParts(items: seq<Item>, waiting: set<nat>, queue: seq<nat>, cur: seq<nat>, k: nat)
    requires Parts(items, waiting, queue, cur) && k < |queue|
    requires cur != [] ==> items[queue[k]].commit == items[cur[0]].commit
    ensures Parts(items, waiting, Removed(queue, k), cur + [queue[k]])
  {
    var queue', cur' := Removed(queue, k), cur + [queue[k]];
    assert PlainList(items, waiting, queue');
    assert PlainList(items, waiting, cur') by {
      assert forall j :: 0 <= j < |cur| ==> cur[j] != queue[k];
    }
    assert forall x :: x in cur' <==> x in cur || x == queue[k];
    forall x | x in waiting ensures x in queue' || x in cur' {
      if x in queue {
        var i :| 0 <= i < |queue| && queue[i] == x;
      }
    }
  }

  lemma TargetNeeds(h: History, s: State, x: nat, child: nat)
    requires Inv(h, s, {}) && Owes(s.out, x, 0, child)
    ensures child in s.live && HasFile(h, s.items[child].commit)
    ensures NeedsOk(h, s.items[child].commit, s.items[child].needs)
    ensures Held(h, s.items[0].commit, s.items[child].commit, s.items[child].needs)
  {
    assert ItemOk(h, s.items, child);
  }

  /** What a group leaves behind in the queue once it has shrunk to its first item. */
  lemma LeftInQueue(items: seq<Item>, waiting: set<nat>, queue: seq<nat>, cur: seq<nat>)
    requires cur != [] && Parts(items, waiting, queue, cur)
    ensures forall y :: y in waiting - Rest(cur) && y != cur[0] ==> y in queue
    ensures forall i :: 0 <= i < |queue| ==> queue[i] !in Rest(cur)
  {
    forall y | y in waiting - Rest(cur) && y != cur[0] ensures y !in cur {
      assert forall j :: 1 <= j < |cur| ==> cur[j] in Rest(cur);
    }
  }

  lemma QueuedItems(items: seq<Item>, waiting: set<nat>, queue: seq<nat>)
    requires Parts(items, waiting, queue, [])
    ensures forall i :: 0 <= i < |queue| ==> queue[i] < |items|
  {
  }

  /** Only the number of answers `x` waits for changed, and at most one item was added. */
  ghost predicate Grew(s: State, queue: seq<nat>, t: State, queue': seq<nat>, x: nat, p: Hash, pushed: bool) {
    var n := |s.items|;
    && x < n && |t.items| == (if pushed then n + 1 else n)
    && t.items[x] == s.items[x].(pending := s.items[x].pending + (if pushed then 1 else 0))
    && (forall q :: 0 <= q < n && q != x ==> t.items[q] == s.items[q])
    && (pushed ==> t.items[n].commit == p)
    && queue' == queue + (if pushed then [n] else [])
    && (forall line, k :: Awaited(s.out, x, line, k) ==> Awaited(t.out, x, line, k))
  }

  /** A new question at the back of the queue. */
  lemma PushGrows(h: History, s: State, queue: seq<nat>, x: nat, it: Item)
    requires x < |s.items| && x in s.live && x !in s.waiting && it.child == Some(x)
    requires Inv(h, s, {x}) && Fresh(h, s, it) && AskedBelow(s.out, x, it.parentNo) && Expandable(h, s, x)
    requires Quiet(s) && Parts(s.items, s.waiting, queue, [])
    ensures var t := Pushed(s, x, it);
            Inv(h, t, {x}) && Grew(s, queue, t, queue + [|s.items|], x, it.commit, true)
            && Quiet(t) && Parts(t.items, t.waiting, queue + [|s.items|], [])
            && AskedBelow(t.out, x, it.parentNo + 1) && Expandable(h, t, x)
    ensures forall line, k :: line in Keys(it.needs, it.identical) && it.parentNo <= k ==>
              Awaited(Pushed(s, x, it).out, x, line, k)
  {
    hide Acyclic, ItemsInv, CountInv, BusyInv, WaitInv, NeedsOk, ContOk, Rank, Reaches, Awaited, Keys, Outs, AskedBelow,
      DiffSpellsOutTexts, Unresolved;
    PushStep(h, s, x, it);
    var queue' := queue + [|s.items|];
    assert forall y :: y in queue' <==> y in queue || y == |s.items|;
  }

  lemma NothingAsked(h: History, s: State, x: nat, parents: seq<Hash>, queue: seq<nat>)
    requires x < |s.items| && HasFile(h, s.items[x].commit) && AskedBelow(s.out, x, 0)
    ensures AskedUpTo(h, s, x, 0)
    ensures AskedSame(s.items, x, parents[..0]) == s.items && Behind(queue, |s.items|, 0) == queue
  {
  }

  /** Asking one more source leaves the others asked. */
  lemma AskedOneMore(h: History, s: State, queue: seq<nat>, t: State, queue': seq<nat>, x: nat, p: Hash, pushed: bool,
                     k: nat)
    requires x < |s.items| && HasFile(h, s.items[x].commit) && AskedUpTo(h, s, x, k) && k < |Sources(h, s.items[x].commit)|
    requires Grew(s, queue, t, queue', x, p, pushed) && HasAsked(h, t, x, k) && AskedBelow(t.out, x, k + 1)
    ensures AskedUpTo(h, t, x, k + 1)
  {
    hide LineMatch, Awaited, AskedBelow;
    forall j | 0 <= j < k + 1 ensures HasAsked(h, t, x, j) {
      if j < k {
        assert HasAsked(h, s, x, j);
      }
    }
  }

  /** One more parent asked: what is queued grows by at most one question about it. */
  lemma {:induction false} PressureAfterOne(w: map<Hash, nat>, s: State, queue: seq<nat>, t: State, queue': seq<nat>,
                                            x: nat, p: Hash, pushed: bool)
    requires forall i :: 0 <= i < |queue| ==> queue[i] < |s.items|
    requires Grew(s, queue, t, queue', x, p, pushed)
    ensures QueueWeight(w, t.items, queue') == QueueWeight(w, s.items, queue) + if pushed then Weight(w, p) else 0
  {
    hide QueueWeight, Weight, Awaited;
    if pushed {
      QueueWeightPush(w, s.items, t.items, queue, |s.items|);
    } else {
      assert queue' == queue;
      QueueWeightSame(w, s.items, t.items, queue);
    }
  }

  lemma LiveItem(h: History, s: State, x: nat, open: set<nat>)
    requires Inv(h, s, open) && x in s.live
    ensures ItemOk(h, s.items, x) && s.out[x] == Outs(s.items[x])
  {
  }

  /** What a run starts with: one question about every line of the start commit's file. */
  function FirstItem(h: History, start: Hash): Item
    requires HasFile(h, start)
  {
    var lines := Lines(h, start);
    Item(None, [], start, lines, seq(|lines|, i requires 0 <= i < |lines| => LineMap(i, i, None, -1)), 0, false, 0)
  }

  lemma FirstStep(h: History, start: Hash)
    requires HasFile(h, start) && Acyclic(Parents(h))
    ensures var s := State([FirstItem(h, start)], [[]], {0}, {0});
            Inv(h, s, {}) && Quiet(s) && Root(h, start, s.items) && Parts(s.items, s.waiting, [0], [])
  {
    var items := [FirstItem(h, start)];
    ReachesSelf(Parents(h), start);
    assert Conts(items[0]) == [] && Outs(items[0]) == [];
    assert ItemOk(h, items, 0);
  }

  class Blamer {
    const h: History
    const start: Hash
    var items: seq<Item>
    var queue: seq<nat>
    ghost const w: map<Hash, nat>
    ghost const unit: map<Hash, nat>
    ghost var out: seq<seq<Out>>
    ghost var live: set<nat>
    ghost var waiting: set<nat>

    ghost function S(): State
      reads this
    {
      State(items, out, live, waiting)
    }

    /** What a call changed besides the items it finished. */
    twostate predicate Settled()
      reads this
    {
      && queue == old(queue) && waiting == old(waiting) && live <= old(live)
      && SameItems(old(items), items) && |out| == |old(out)|
      && (forall y :: y in old(live) && y !in live && 0 <= y < |out| ==> out[y] == [])
    }

    /** Attributes what is left to the item's own commit and takes the item out of the run,
        unless it is the first one. */
    method FinishOwn(x: nat) returns (r: seq<LineMap>)
      requires Inv(h, S(), {x}) && Root(h, start, items)
      requires x in live && x !in waiting && items[x].pending == 0 && Covered(h, S(), x)
      modifies this`items, this`live
      ensures SameItems(old(items), items) && Root(h, start, items)
      ensures r == Finish(old(items)[x].needs, old(items)[x].commit)
      ensures items == old(items)[x := old(items)[x].(needs := r)]
      ensures x == 0 ==> RootDone(h, start, items)
      ensures x != 0 ==> live == old(live) - {x} && Inv(h, S(), {}) && CanAnswer(h, items, old(items[x]), r)
    {
      ghost var s := S();
      assert ItemOk(h, items, x);
      var it := items[x];
      r := FinishLines(it.needs, it.commit);
      FinishedRight(h, s, x, r);
      UpdateSameItems(items, x, it.(needs := r));
      RootKept(h, start, items, items[x := it.(needs := r)]);
      items := items[x := it.(needs := r)];
      if x != 0 {
        FinishStep(h, s, x, r);
        live := live - {x};
        assert S() == Finished(s, x, r);
        StillCanAnswer(h, s.items, items, x, r);
      }
    }

    /** `finishNeeds`: every line left over came from this revision; answer whoever asked.
        The result says whether the first item is done. */
    method FinishNeeds(x: nat) returns (ok: bool, finished: bool)
      requires Inv(h, S(), {x}) && Root(h, start, items)
      requires x in live && x !in waiting && items[x].pending == 0 && Covered(h, S(), x)
      modifies this
      ensures ok && Root(h, start, items)
      ensures finished ==> RootDone(h, start, items)
      ensures !finished ==> Inv(h, S(), {}) && Settled() && x !in live && out[x] == []
      ensures !finished ==> forall y :: 0 <= y < |out| && y !in old(live) ==> out[y] == old(out[y])
      ensures old(items)[x].child.None? && old(items)[x].merged == [] ==>
                finished && items == old(items)[x := old(items)[x].(needs := Finish(old(items)[x].needs, old(items)[x].commit))]
      ensures HasSameChild(old(items), x) ==> FinishedSame(old(items), x, items, finished)
      decreases live, 0
    {
      hide Acyclic, ItemsInv, CountInv, BusyInv, WaitInv, ItemOk, CanAnswer, RootDone, Finish, HandedOver, NeedsOk;
      var it := items[x];
      LiveItem(h, S(), x, {x});
      var r := FinishOwn(x);
      if it.child.None? && it.merged == [] {
        return true, true;
      }
      ghost var mid := items;
      ok, finished := AnswerAll(x, it, r);
      if !finished {
        SameItemsTrans(old(items), mid, items);
      }
    }

    /** Hands the answers of a finished item to everybody who asked. */
    method AnswerAll(x: nat, it: Item, r: seq<LineMap>) returns (ok: bool, finished: bool)
      requires Inv(h, S(), {}) && Root(h, start, items) && x < |items| && x !in live
      requires out[x] == Outs(it) && CanAnswer(h, items, it, r)
      modifies this
      ensures ok && Root(h, start, items)
      ensures finished ==> RootDone(h, start, items)
      ensures !finished ==> Inv(h, S(), {}) && Settled() && out[x] == []
      ensures !finished ==> forall y :: 0 <= y < |out| && y !in old(live) && y != x ==> out[y] == old(out[y])
      ensures PlainAnswer(it, old(items), r) ==>
                HandedOver(old(items), it.child.value, r, it.parentNo, items, finished)
      decreases live, 2
    {
      hide Acyclic, ItemsInv, CountInv, BusyInv, WaitInv, RootDone, CanAnswer, Answers, SameItems, OutOf, SameLines,
        HandedOver;
      var conts := Conts(it);
      SameItemsSelf(items);
      for i := 0 to |conts|
        invariant Inv(h, S(), {}) && Root(h, start, items) && x < |items| && x !in live
        invariant |out| == |old(out)| && out[x] == Outs(it)[i..]
        invariant CanAnswer(h, items, it, r) && Settled() && (i == 0 ==> items == old(items))
        invariant i > 0 && PlainAnswer(it, old(items), r) ==>
                    HandedOver(old(items), it.child.value, r, it.parentNo, items, false)
        invariant forall y :: 0 <= y < |out| && y !in old(live) && y != x ==> out[y] == old(out[y])
      {
        var c := conts[i];
        var part := r;
        if it.merged != [] {
          ReadyToScatter(h, items, it, r, i);
          part := Scatter(c.needs, r);
        }
        ReadyToAnswer(h, items, it, r, i, part);
        assert out[x][0] == Outs(it)[i] && Outs(it)[i..][1..] == Outs(it)[i + 1..];
        ghost var mid := items;
        ok, finished := ApplyNeeds(x, c.child, part, c.identical, c.parentNo);
        if finished {
          return;
        }
        SameItemsTrans(old(items), mid, items);
        StillAnswers(h, mid, items, it, r);
      }
      return true, false;
    }

    /** `applyNeeds`: enters the answers into the child, which is finished in turn when
        nothing is outstanding for it any more. */
    method ApplyNeeds(ghost x: nat, child: nat, needs: seq<LineMap>, identical: bool, parentNo: int)
      returns (ok: bool, finished: bool)
      requires Inv(h, S(), {}) && Root(h, start, items) && x < |items| && x !in live && child < |items|
      requires out[x] != [] && out[x][0] == Out(child, Keys(needs, identical), parentNo)
      requires Answers(h, start, items[child].commit, needs, identical, parentNo)
      requires if identical then SameLines(needs, items[child].needs) else needs != [] && IncreasingOrig(needs)
      modifies this
      ensures ok && Root(h, start, items)
      ensures finished ==> RootDone(h, start, items)
      ensures !finished ==> Inv(h, S(), {}) && Settled() && out[x] == old(out[x])[1..]
      ensures !finished ==> forall y :: 0 <= y < |out| && y !in old(live) && y != x ==> out[y] == old(out[y])
      ensures identical ==> HandedOver(old(items), child, needs, parentNo, items, finished)
      decreases live, 1
    {
      hide Acyclic, ItemsInv, CountInv, WaitInv, Answers, Covered, RootDone, Enter, Finish;
      EnterAnswers(x, child, needs, identical, parentNo);
      if items[child].pending == 0 {
        ghost var mid := items;
        ok, finished := FinishNeeds(child);
        if !finished {
          SameItemsTrans(old(items), mid, items);
        }
        return;
      }
      assert BusyInv(h, S(), {});
      return true, false;
    }

    /** The loops of `applyNeeds` and its countdown. */
    method EnterAnswers(ghost x: nat, child: nat, needs: seq<LineMap>, identical: bool, parentNo: int)
      requires Inv(h, S(), {}) && Root(h, start, items) && x < |items| && x !in live && child < |items|
      requires out[x] != [] && out[x][0] == Out(child, Keys(needs, identical), parentNo)
      requires Answers(h, start, items[child].commit, needs, identical, parentNo)
      requires if identical then SameLines(needs, items[child].needs) else needs != [] && IncreasingOrig(needs)
      modifies this`items, this`out
      ensures Root(h, start, items) && SameItems(old(items), items)
      ensures child in live && child !in waiting && items[child].pending == old(items[child].pending) - 1
      ensures Inv(h, S(), {child}) && Covered(h, S(), child)
      ensures out == old(out)[x := old(out)[x][1..]]
      ensures items[child] == old(items)[child].(needs := items[child].needs, pending := old(items)[child].pending - 1)
      ensures items == old(items)[child := items[child]]
      ensures identical ==> items[child].needs == Enter(old(items)[child].needs, needs, parentNo)
    {
      hide Acyclic, ItemsInv, CountInv, BusyInv, WaitInv;
      ghost var s := S();
      TargetNeeds(h, s, x, child);
      var it := items[child];
      var r: seq<LineMap>;
      if identical {
        var _, r' := ApplyIdentical(it.needs, needs, parentNo);
        r := r';
      } else {
        r := ApplyByOrig(it.needs, needs, parentNo);
      }
      AppliedRight(h, start, it.commit, it.needs, r, needs, identical, parentNo);
      AnswerStep(h, s, x, child, r);
      UpdateSameItems(items, child, it.(needs := r, pending := it.pending - 1));
      RootKept(h, start, items, items[child := it.(needs := r, pending := it.pending - 1)]);
      items := items[child := it.(needs := r, pending := it.pending - 1)];
      out := out[x := out[x][1..]];
      assert S() == Answered(s, x, child, r);
    }

    // --- Merging the items of one commit ------------------------------------------------

    ghost predicate Steady()
      reads this
    {
      Inv(h, S(), {}) && Root(h, start, items) && Quiet(S())
    }

    /** Waiting items about one commit, none of them merged before. */
    ghost predicate Group(cur: seq<nat>)
      reads this
    {
      && cur != [] && Separate(cur, |items|)
      && (forall j :: 0 <= j < |cur| ==> cur[j] in waiting)
      && (forall j :: 0 <= j < |cur| ==> items[cur[j]].commit == items[cur[0]].commit)
      && (forall j :: 0 <= j < |cur| ==> items[cur[j]].merged == [])
    }

    /** The other waiting items are as they were. */
    twostate predicate OthersWait(x: nat)
      reads this
    {
      && queue == old(queue) && waiting <= old(waiting) && |items| == |old(items)|
      && x in old(waiting) && x < |items| && items[x].commit == old(items)[x].commit
      && forall q :: q in waiting && q != x && 0 <= q < |items| ==> items[q] == old(items)[q]
    }

    /** Whether all items of the group are unchanged copies of what one child asked. */
    method AllIdentical(cur: seq<nat>) returns (same: bool, lowest: int)
      requires Steady() && Group(cur)
      ensures same <==> forall j :: 0 <= j < |cur| ==> items[cur[j]].identical && items[cur[j]].child == items[cur[0]].child
      ensures same ==> items[cur[0]].child.Some? && AskTheSame(S(), cur, items[cur[0]].child.value)
      ensures same ==> lowest == LowestNo(items, cur, |cur|)
    {
      hide Acyclic, ItemsInv, CountInv, BusyInv, WaitInv, ItemOk, ContOk;
      var first := items[cur[0]];
      same, lowest := first.identical, first.parentNo;
      if same {
        ghost var _ := IdenticalOuts(h, S(), cur[0]);
        for i := 1 to |cur|
          invariant same
          invariant lowest == LowestNo(items, cur, i)
          invariant forall j :: 0 <= j < i ==> items[cur[j]].identical && items[cur[j]].child == first.child
        {
          var it := items[cur[i]];
          if !it.identical || it.child != first.child {
            same := false;
            return;
          }
          lowest := if it.parentNo < lowest then it.parentNo else lowest;
        }
      }
    }

    /** Item `x` took the place of others that asked the same of the same commit. */
    ghost predicate Collapsed(x: nat)
      reads this
    {
      && x < |items| && items[x].child.Some? && items[x].child.value < |items| && items[x].parentNo >= 0
      && Collapsible(h, items[items[x].child.value].commit, items[x].parentNo)
    }

    method RelayOnce(x: nat, child: nat) returns (next: nat)
      requires Steady() && x in waiting && items[x].identical && items[x].child == Some(child) && Collapsed(x)
      requires child in live && child !in waiting && Relay(items[child])
      modifies this`items, this`out, this`live
      ensures Steady() && live == old(live) - {child} && OthersWait(x)
      ensures items[x].merged == [] && items[x].identical && items[x].child == Some(next) && Collapsed(x)
      ensures next in live && next !in waiting && items == Hop(old(items), x)
    {
      hide Acyclic, ItemsInv, CountInv, BusyInv, WaitInv, Collapsible;
      ghost var s := S();
      RelayedSteady(h, start, s, x, child);
      items := items[x := items[x].(child := items[child].child, parentNo := items[child].parentNo)];
      out := out[x := out[child]][child := []];
      live := live - {child};
      assert S() == Relayed(s, x, child);
      next := items[x].child.value;
    }

    /** Answers directly to where a child would only pass the answer on. */
    method SkipRelays(x: nat)
      requires Steady() && x in waiting && items[x].identical && Collapsed(x)
      modifies this`items, this`out, this`live
      ensures Steady() && OthersWait(x) && items[x].merged == [] && live <= old(live)
      ensures PassedRelays(old(items), x, items)
    {
      hide Acyclic, ItemsInv, CountInv, BusyInv, WaitInv, Collapsible, ItemOk, ContOk, SameLines, Hop, Root;
      ghost var _ := IdenticalOuts(h, S(), x);
      var child := items[x].child.value;
      ghost var n := 0;
      while Relay(items[child])
        invariant items == Hops(old(items), x, n)
        invariant Steady() && OthersWait(x) && live <= old(live)
        invariant items[x].merged == [] && items[x].identical && Collapsed(x)
        invariant items[x].child == Some(child) && child in live && child !in waiting
        decreases live
      {
        child := RelayOnce(x, child);
        n := n + 1;
      }
    }

    /** Drops all items of a group but the first, which now answers for all of them. */
    method KeepFirst(cur: seq<nat>, lowest: int)
      requires Steady() && Group(cur) && items[cur[0]].child.Some? && |cur| > 1
      requires AskTheSame(S(), cur, items[cur[0]].child.value) && lowest == LowestNo(items, cur, |cur|)
      modifies this`items, this`out, this`live, this`waiting
      ensures Steady() && OthersWait(cur[0]) && live <= old(live)
      ensures cur[0] in waiting && waiting == old(waiting) - Rest(cur) && items[cur[0]].identical && Collapsed(cur[0])
      ensures SameGroup(old(items), cur) && items == FirstOf(old(items), cur)
    {
      hide Acyclic, ItemsInv, CountInv, BusyInv, WaitInv, Collapsible;
      var x := cur[0];
      var child := items[x].child.value;
      ghost var t := FirstKept(h, S(), start, cur, child);
      items := items[child := items[child].(pending := items[child].pending - |cur| + 1)];
      items := items[x := items[x].(parentNo := lowest)];
      out, live, waiting := t.out, t.live, t.waiting;
      assert S() == t;
    }

    /** The needs maps of a group, merged. */
    method UnionNeeds(cur: seq<nat>) returns (needs: seq<LineMap>)
      requires Steady() && Group(cur)
      ensures Unresolved(needs) && HasFile(h, items[cur[0]].commit) && NeedsOk(h, items[cur[0]].commit, needs)
      ensures forall j :: 0 <= j < |cur| ==> Curs(items[cur[j]].needs) <= Curs(needs)
    {
      hide Acyclic, ItemsInv, CountInv, BusyInv, WaitInv;
      ghost var commit := items[cur[0]].commit;
      WaitingNeeds(h, S(), cur[0]);
      needs := items[cur[0]].needs;
      for i := 1 to |cur|
        invariant Unresolved(needs) && NeedsOk(h, commit, needs)
        invariant forall j :: 0 <= j < i ==> Curs(items[cur[j]].needs) <= Curs(needs)
      {
        WaitingNeeds(h, S(), cur[i]);
        ghost var before := needs;
        needs := MergeNeeds(needs, items[cur[i]].needs);
        MergedInRange(h, commit, before, items[cur[i]].needs, needs);
      }
    }

    method GroupConts(cur: seq<nat>) returns (conts: seq<Cont>)
      requires Mergeable(S(), cur)
      ensures conts == MergedConts(items, cur)
    {
      conts := [];
      for i := 0 to |cur|
        invariant |conts| == i && forall j :: 0 <= j < i ==> conts[j] == Conts(items[cur[j]])[0]
      {
        var it := items[cur[i]];
        conts := conts + [Cont(it.child.value, it.needs, it.identical, it.parentNo)];
      }
    }

    /** The group becomes one item that answers everybody the group had to answer. */
    method Combine(cur: seq<nat>)
      requires Steady() && Group(cur) && |cur| > 1
      modifies this`items, this`out, this`live, this`waiting
      ensures Steady() && OthersWait(cur[0]) && live <= old(live)
      ensures cur[0] in waiting && waiting == old(waiting) - Rest(cur)
    {
      hide Acyclic, ItemsInv, CountInv, BusyInv, WaitInv;
      var x := cur[0];
      GroupMergeable(h, S(), start, cur);
      var conts := GroupConts(cur);
      var needs := UnionNeeds(cur);
      ghost var t := GroupGathered(h, S(), start, cur, needs);
      items := items[x := items[x].(merged := conts, needs := needs, identical := false, child := None)];
      out, live, waiting := t.out, t.live, t.waiting;
      assert S() == t;
    }

    /** The first half of `addBlames`: the group is reduced to one waiting item. */
    method Collapse(cur: seq<nat>)
      requires Steady() && Group(cur)
      modifies this`items, this`out, this`live, this`waiting
      ensures Steady() && OthersWait(cur[0]) && live <= old(live)
      ensures cur[0] in waiting && waiting == old(waiting) - Rest(cur)
      ensures |cur| == 1 ==> items == old(items)
      ensures SameGroup(old(items), cur) ==> PassedRelays(FirstOf(old(items), cur), cur[0], items)
    {
      hide Acyclic, ItemsInv, CountInv, BusyInv, WaitInv, PassedRelays;
      if |cur| == 1 {
        assert Rest(cur) == {};
        return;
      }
      var same, lowest := AllIdentical(cur);
      if same {
        KeepFirst(cur, lowest);
        SkipRelays(cur[0]);
      } else {
        Combine(cur);
      }
    }

    // --- Asking the parents --------------------------------------------------------------

    /** The queue holds the waiting items, each once. */
    ghost predicate Queued()
      reads this
    {
      Parts(items, waiting, queue, [])
    }

    /** Item `x` has been taken up and is asking its parents. */
    ghost predicate Asking(x: nat)
      reads this
    {
      && Inv(h, S(), {x}) && Root(h, start, items) && Quiet(S()) && Queued()
      && x !in waiting && Expandable(h, S(), x)
    }

    twostate predicate OneMore(x: nat, p: Hash, pushed: bool)
      reads this
    {
      Grew(old(S()), old(queue), S(), queue, x, p, pushed)
    }

    method Push(x: nat, it: Item)
      requires Asking(x) && Fresh(h, S(), it) && it.child == Some(x) && AskedBelow(out, x, it.parentNo)
      modifies this
      ensures Asking(x) && OneMore(x, it.commit, true) && AskedBelow(out, x, it.parentNo + 1)
      ensures items == old(items)[x := old(items)[x].(pending := old(items)[x].pending + 1)] + [it]
      ensures forall line, k :: line in Keys(it.needs, it.identical) && it.parentNo <= k ==> Awaited(out, x, line, k)
    {
      hide Acyclic, ItemsInv, CountInv, BusyInv, WaitInv, Inv, Fresh, Grew, Parts, Quiet, Awaited, Keys, AskedBelow,
        DiffSpellsOutTexts, Unresolved;
      ghost var s := S();
      PushGrows(h, s, queue, x, it);
      ghost var t := Pushed(s, x, it);
      items := items[x := items[x].(pending := items[x].pending + 1)];
      queue := queue + [|items|];
      items := items + [it];
      out, live, waiting := t.out, t.live, t.waiting;
      assert S() == t;
    }

    /** One more question, the same as the item's own. */
    twostate predicate AskedOne(x: nat, p: Hash, parentNo: int)
      requires x < |old(items)|
      reads this
    {
      var it := old(items)[x];
      items == old(items)[x := it.(pending := it.pending + 1)] + [SameQuestion(it, x, p, parentNo)]
    }

    method AskOneParent(x: nat, p: Hash, parentNo: int) returns (pushed: bool)
      requires Asking(x) && SourceNo(h, items[x].commit, p, parentNo) && AskedBelow(out, x, parentNo)
      modifies this
      ensures Asking(x) && OneMore(x, p, pushed) && HasAsked(h, S(), x, parentNo) && AskedBelow(out, x, parentNo + 1)
      ensures Lines(h, p) == Lines(h, old(items)[x].commit) ==> pushed && AskedOne(x, p, parentNo)
    {
      hide Acyclic, ItemsInv, CountInv, BusyInv, WaitInv, AskedBelow, HasAsked;
      if Lines(h, p) == Lines(h, items[x].commit) {
        AskSameBlob(x, p, parentNo);
        pushed := true;
      } else {
        pushed := AskOtherBlob(x, p, parentNo);
      }
    }

    method AskSameBlob(x: nat, p: Hash, parentNo: int)
      requires Asking(x) && SourceNo(h, items[x].commit, p, parentNo) && AskedBelow(out, x, parentNo)
      requires Lines(h, p) == Lines(h, items[x].commit)
      modifies this
      ensures Asking(x) && OneMore(x, p, true) && HasAsked(h, S(), x, parentNo) && AskedBelow(out, x, parentNo + 1)
      ensures AskedOne(x, p, parentNo)
    {
      hide Acyclic, ItemsInv, CountInv, BusyInv, WaitInv, AskedBelow, Awaited, LineMatch, Fresh, Root, Quiet, Parts,
        Unresolved, DiffSpellsOutTexts, Rank, Reaches;
      var it := items[x];
      SameQuestionFresh(h, S(), x, p, parentNo);
      Push(x, SameQuestion(it, x, p, parentNo));
      forall i | 0 <= i < |items[x].needs| ensures Awaited(out, x, items[x].needs[i].cur, parentNo) {
        KeyOf(it.needs, true, i);
      }
    }

    method AskOtherBlob(x: nat, p: Hash, parentNo: int) returns (pushed: bool)
      requires Asking(x) && SourceNo(h, items[x].commit, p, parentNo) && AskedBelow(out, x, parentNo)
      requires Lines(h, p) != Lines(h, items[x].commit)
      modifies this
      ensures Asking(x) && OneMore(x, p, pushed) && HasAsked(h, S(), x, parentNo) && AskedBelow(out, x, parentNo + 1)
    {
      hide Acyclic, ItemsInv, CountInv, BusyInv, WaitInv, Fresh, Awaited, Root, Quiet, Parts, DiffSpellsOutTexts;
      var it := items[x];
      AlignmentCovers(h, S(), x, p);
      ghost var a := ParentAlignment(h, it.commit, p);
      var get := AskParent(h.diff(Lines(h, p), it.contents), it.needs, a);
      forall i | 0 <= i < |it.needs| ensures a[it.needs[i].cur].Some? ==> it.needs[i].cur in Keys(get, false) {
        CarriedOverHas(a, it.needs, |it.needs|, i);
      }
      pushed := |get| > 0;
      if pushed {
        DiffQuestionFresh(h, S(), x, p, get, parentNo);
        Push(x, DiffQuestion(h, x, p, get, parentNo));
      }
    }

    /** `parentsContainingPath`, without renames: nothing when a parent cannot be loaded. */
    method ParentsContainingPath(commit: Hash) returns (r: Option<seq<Hash>>)
      requires commit in h.commits
      ensures r.Some? ==> r.value == WithFile(h, h.commits[commit].parents)
      ensures r.None? <==> exists p :: p in h.commits[commit].parents && p !in h.commits
      ensures r.None? ==> !CompleteFrom(Parents(h), commit)
    {
      hide WithFile, CompleteFrom;
      var result, parents := [], h.commits[commit].parents;
      WithFileNone(h, parents);
      for i := 0 to |parents|
        invariant result == WithFile(h, parents[..i])
        invariant forall j :: 0 <= j < i ==> parents[j] in h.commits
      {
        if parents[i] !in h.commits {
          ParentMissing(h, commit, parents[i]);
          return None;
        }
        WithFileNext(h, parents, i);
        if h.commits[parents[i]].file.Present? {
          result := result + [parents[i]];
        }
      }
      assert parents[..|parents|] == parents;
      return Some(result);
    }

    /** Takes a waiting item up: from now on it is suspended. */
    ghost method TakeUp(x: nat)
      requires Acyclic(Parents(h)) && DiffSpellsOutTexts(h.diff)
      requires Steady() && x in waiting && x !in queue && QueuedBut(x)
      modifies this`waiting
      ensures Asking(x) && waiting == old(waiting) - {x} && AskedBelow(out, x, 0)
    {
      hide Acyclic, Inv, Root, Expandable, AskedBelow, DiffSpellsOutTexts;
      ghost var s := S();
      OpenedExpandable(h, s, x);
      waiting := waiting - {x};
      assert S() == Opened(s, x);
    }

    ghost predicate QueuedBut(x: nat)
      reads this
    {
      PlainList(items, waiting, queue) && forall y :: y in waiting && y != x ==> y in queue
    }

    /** The item steps aside for one about its only parent. */
    method PassOn(x: nat, p: Hash)
      requires Asking(x) && ParentOf(h, items[x].commit, p) && HasFile(h, items[x].commit)
      requires Lines(h, p) == Lines(h, items[x].commit) && items[x].identical && items[x].pending == 0 && x != 0
      requires Sources(h, items[x].commit) == [p]
      modifies this
      ensures Steady() && Queued()
      ensures items == old(items) + [RelayedQuestion(old(items)[x], p)] && queue == old(queue) + [|old(items)|]
    {
      hide Acyclic, ItemsInv, CountInv, BusyInv, WaitInv, Inv, Quiet, Root, Parts, Sources;
      ghost var s := S();
      PassedOnSteady(h, start, s, x, p, queue);
      var it := RelayedQuestion(items[x], p);
      ghost var t := PassedOn(s, x, it);
      queue := queue + [|items|];
      items := items + [it];
      out, live, waiting := t.out, t.live, t.waiting;
      assert S() == t;
    }

    ghost function Pressure(): nat
      reads this
    {
      QueueWeight(w, items, queue)
    }

    method AskNext(x: nat, parents: seq<Hash>, k: nat) returns (pushed: bool)
      requires Asking(x) && HasFile(h, items[x].commit) && parents == Sources(h, items[x].commit)
      requires k < |parents| && AskedUpTo(h, S(), x, k)
      modifies this
      ensures Asking(x) && OneMore(x, parents[k], pushed) && AskedUpTo(h, S(), x, k + 1)
      ensures Lines(h, parents[k]) == Lines(h, old(items)[x].commit) ==> pushed && AskedOne(x, parents[k], k)
    {
      hide Acyclic, ItemsInv, CountInv, BusyInv, WaitInv, Quiet, Parts, Awaited, AskedBelow, HasAsked;
      ghost var was, wasQueue := S(), queue;
      pushed := AskOneParent(x, parents[k], k);
      AskedOneMore(h, was, wasQueue, S(), queue, x, parents[k], pushed, k);
    }

    /** Asks every parent in `parents`, in order. */
    method AskAll(x: nat, parents: seq<Hash>, ghost each: nat)
      requires Asking(x) && HasFile(h, items[x].commit) && items[x].pending == 0
      requires parents == Sources(h, items[x].commit) && AskedBelow(out, x, 0)
      requires forall p :: p in parents ==> Weight(w, p) <= each
      modifies this
      ensures Asking(x) && items[x] == old(items)[x].(pending := items[x].pending) && items[x].pending >= 0
      ensures AskedUpTo(h, S(), x, |parents|)
      ensures AllTwins(h, items[x].commit) ==>
                items == AskedSame(old(items), x, parents) && queue == Behind(old(queue), |old(items)|, |parents|)
      ensures Pressure() <= old(Pressure()) + Times(|parents|, each)
    {
      hide Acyclic, ItemsInv, CountInv, BusyInv, WaitInv, Quiet, Parts, Awaited, AskedBelow, QueueWeight, Weight,
        AskedUpTo, AskedSame, Behind, Root, SameQuestion, Unresolved, DiffSpellsOutTexts;
      NothingAsked(h, S(), x, parents, queue);
      assert parents[..|parents|] == parents;
      for k := 0 to |parents|
        invariant x < |items| && Asking(x) && items[x] == old(items)[x].(pending := items[x].pending) && items[x].pending >= 0
        invariant AskedUpTo(h, S(), x, k)
        invariant AllTwins(h, items[x].commit) ==>
                    items == AskedSame(old(items), x, parents[..k]) && queue == Behind(old(queue), |old(items)|, k)
        invariant Pressure() <= old(Pressure()) + Times(k, each)
      {
        ghost var was, wasQueue := S(), queue;
        QueuedItems(items, waiting, queue);
        var pushed := AskNext(x, parents, k);
        if AllTwins(h, items[x].commit) {
          assert Twin(h, items[x].commit, k);
          AskedSameNext(old(items), x, parents, k, was.items, items);
          BehindNext(old(queue), |old(items)|, k);
        }
        PressureAfterOne(w, was, wasQueue, S(), queue, x, parents[k], pushed);
      }
    }

    /** Whether the item can step aside: one parent and one child, all with the same blob. */
    predicate CanPassOn(x: nat, parents: seq<Hash>)
      requires x < |items| && HasFile(h, items[x].commit)
      reads this
    {
      && |parents| == 1 && items[x].merged == [] && items[x].identical
      && HasFile(h, parents[0]) && Lines(h, parents[0]) == Lines(h, items[x].commit)
    }

    /** Nothing is left to ask: finishes the item. */
    method FinishAsked(x: nat) returns (r: Outcome)
      requires Asking(x) && HasFile(h, items[x].commit) && items[x].pending == 0 && Covered(h, S(), x)
      modifies this
      ensures r.AllDone? || r.Continue?
      ensures r.AllDone? ==> RootDone(h, start, items)
      ensures r.Continue? ==> Steady() && Queued() && Pressure() == old(Pressure())
      ensures r.Continue? ==> queue == old(queue)
      ensures HasSameChild(old(items), x) ==> FinishedSame(old(items), x, items, r.AllDone?)
    {
      hide Acyclic, ItemsInv, CountInv, BusyInv, WaitInv, FinishedSame, Finish;
      var ok, finished := FinishNeeds(x);
      if finished {
        return AllDone;
      }
      assert forall i :: 0 <= i < |queue| ==> SameItem(old(items)[queue[i]], items[queue[i]]);
      QueueWeightSame(w, old(items), items, queue);
      return Continue;
    }

    /** Asks all parents of an item that has been taken up. */
    method AskSources(x: nat, parents: seq<Hash>)
      requires Asking(x) && HasFile(h, items[x].commit) && items[x].pending == 0
      requires parents == Sources(h, items[x].commit) && AskedBelow(out, x, 0) && Weighs(h, w, unit)
      modifies this
      ensures Asking(x) && items[x] == old(items)[x].(pending := items[x].pending) && items[x].pending >= 0
      ensures Covered(h, S(), x) && Pressure() < old(Pressure()) + Weight(w, old(items)[x].commit)
      ensures AllTwins(h, items[x].commit) ==>
                items == AskedSame(old(items), x, parents) && queue == Behind(old(queue), |old(items)|, |parents|)
    {
      hide Acyclic, ItemsInv, CountInv, BusyInv, WaitInv, AskedSame, Behind, AskedBelow, Covered, Quiet, Parts;
      ghost var commit := items[x].commit;
      ghost var each := unit[commit];
      TimesMonotone(|parents|, |h.commits[commit].parents|, each);
      AskAll(x, parents, each);
      AllAsked(h, S(), x);
    }

    /** Asks the parents of an item that has been taken up, or finishes it. */
    method AskOrFinish(x: nat, parents: seq<Hash>) returns (r: Outcome)
      requires Asking(x) && HasFile(h, items[x].commit) && items[x].pending == 0
      requires parents == Sources(h, items[x].commit) && AskedBelow(out, x, 0) && Weighs(h, w, unit)
      modifies this
      ensures r.AllDone? || r.Continue?
      ensures r.AllDone? ==> RootDone(h, start, items)
      ensures r.Continue? ==> Steady() && Queued() && Pressure() < old(Pressure()) + Weight(w, old(items)[x].commit)
      ensures Asked(h, old(items), old(queue), x, items, queue, r)
    {
      hide Acyclic, ItemsInv, CountInv, BusyInv, WaitInv, AskedSame, Behind, FinishedSame, AskedBelow, Covered, Quiet,
        Parts, Root, RootDone, Weighs, DiffSpellsOutTexts, Unresolved, HasSameChild;
      AskSources(x, parents);
      AskedSameCases(old(items), x, parents);
      if items[x].pending == 0 {
        NothingAsked(h, old(S()), x, parents, old(queue));
        r := FinishAsked(x);
      } else {
        SuspendStep(h, S(), x);
        r := Continue;
      }
    }

    /** The second half of `addBlames`: asks the parents, or finishes the item when there
        is nobody to ask. */
    method Expand(x: nat) returns (r: Outcome)
      requires Acyclic(Parents(h)) && DiffSpellsOutTexts(h.diff) && Weighs(h, w, unit)
      requires Steady() && x in waiting && x !in queue && QueuedBut(x)
      modifies this
      ensures !r.Corrupt?
      ensures r.MissingParent? ==> !CompleteFrom(Parents(h), start)
      ensures r.AllDone? ==> RootDone(h, start, items)
      ensures r.Continue? ==> Steady() && Queued()
      ensures r.Continue? ==> Pressure() < old(Pressure()) + Weight(w, old(items)[x].commit)
      ensures Expanded(h, old(items), old(queue), x, items, queue, r)
    {
      hide Acyclic, ItemsInv, CountInv, BusyInv, WaitInv, Expandable, Moved, NeedsOk, Quiet, Parts, PlainList, RootDone,
        AskedBelow, Weighs, Weight, QueueWeight, DiffSpellsOutTexts, Unresolved, Reaches;
      WaitingNeeds(h, S(), x);
      var parents := ParentsContainingPath(items[x].commit);
      if parents.None? {
        IncompleteAbove(h, start, items[x].commit);
        return MissingParent;
      }
      TakeUp(x);
      r := Move(x, parents.value);
    }

    /** The item steps aside for its only parent, or asks its parents. */
    method Move(x: nat, parents: seq<Hash>) returns (r: Outcome)
      requires Asking(x) && HasFile(h, items[x].commit) && items[x].pending == 0
      requires parents == Sources(h, items[x].commit) && AskedBelow(out, x, 0) && Weighs(h, w, unit)
      modifies this
      ensures r.AllDone? || r.Continue?
      ensures r.AllDone? ==> RootDone(h, start, items)
      ensures r.Continue? ==> Steady() && Queued() && Pressure() < old(Pressure()) + Weight(w, old(items)[x].commit)
      ensures Moved(h, old(items), old(queue), x, items, queue, r)
    {
      hide Acyclic, ItemsInv, CountInv, BusyInv, WaitInv, Asked, NeedsOk, Quiet, Parts, PlainList, RootDone,
        AskedBelow, Weighs, Weight, QueueWeight, DiffSpellsOutTexts, Unresolved, Reaches, RelayedQuestion;
      if CanPassOn(x, parents) {
        assert parents == [parents[0]];
        r := PassOnTo(x, parents[0]);
      } else {
        r := AskOrFinish(x, parents);
      }
    }

    method PassOnTo(x: nat, p: Hash) returns (r: Outcome)
      requires Asking(x) && ParentOf(h, items[x].commit, p) && HasFile(h, items[x].commit)
      requires Lines(h, p) == Lines(h, items[x].commit) && items[x].identical && items[x].pending == 0
      requires Sources(h, items[x].commit) == [p]
      requires Weighs(h, w, unit)
      modifies this
      ensures r.Continue? && Steady() && Queued()
      ensures items == old(items) + [RelayedQuestion(old(items)[x], p)] && queue == old(queue) + [|old(items)|]
      ensures Pressure() < old(Pressure()) + Weight(w, old(items)[x].commit)
    {
      hide Acyclic, ItemsInv, CountInv, BusyInv, WaitInv;
      ghost var _ := IdenticalOuts(h, S(), x);
      ghost var commit := items[x].commit;
      LighterParent(h, w, unit, commit, p);
      PassOn(x, p);
      QueueWeightPush(w, old(items), items, old(queue), |old(items)|);
      r := Continue;
    }

    // --- The queue ---------------------------------------------------------------------

    /** Items popped from the queue: they still wait, the others are queued. */
    ghost predicate Popped(cur: seq<nat>)
      reads this
    {
      Steady() && cur != [] && Parts(items, waiting, queue, cur)
    }

    /** The position of an item that the priority queue would hand out next. */
    method Best() returns (k: nat)
      requires queue != [] && forall i :: 0 <= i < |queue| ==> queue[i] < |items| && items[queue[i]].commit in h.commits
      ensures k < |queue|
      ensures forall i :: 0 <= i < |queue| ==> !Less(h, items[queue[k]].commit, items[queue[i]].commit)
    {
      k := 0;
      for i := 1 to |queue|
        invariant k < |queue|
        invariant forall j :: 0 <= j < i ==> !Less(h, items[queue[k]].commit, items[queue[j]].commit)
      {
        if Less(h, items[queue[k]].commit, items[queue[i]].commit) {
          k := i;
        }
      }
    }

    /** `addBlames`. */
    method AddBlames(cur: seq<nat>) returns (r: Outcome)
      requires Acyclic(Parents(h)) && DiffSpellsOutTexts(h.diff) && Weighs(h, w, unit) && Popped(cur)
      modifies this
      ensures !r.Corrupt?
      ensures r.MissingParent? ==> !CompleteFrom(Parents(h), start)
      ensures r.AllDone? ==> RootDone(h, start, items)
      ensures r.Continue? ==> Steady() && Queued()
      ensures r.Continue? ==> Pressure() < old(Pressure()) + Weight(w, old(items)[cur[0]].commit)
      ensures GroupExpanded(h, old(items), old(queue), cur, items, queue, r)
    {
      hide Acyclic, Inv, Quiet, Expanded, PassedRelays, FirstOf, SameGroup;
      var x := cur[0];
      LeftInQueue(items, waiting, queue, cur);
      Collapse(cur);
      QueueWeightSame(w, old(items), items, queue);
      r := Expand(x);
    }

    /** Takes an item the priority queue would hand out next into the group. */
    method PopInto(cur: seq<nat>, k: nat) returns (cur': seq<nat>)
      requires k < |queue| && Parts(items, waiting, queue, cur)
      requires cur != [] ==> items[queue[k]].commit == items[cur[0]].commit
      modifies this`queue
      ensures cur' == cur + [old(queue)[k]] && Parts(items, waiting, queue, cur')
      ensures |queue| < |old(queue)| && (forall y :: y in old(queue) <==> y in queue || y == old(queue)[k])
      ensures Pressure() + Weight(w, items[old(queue)[k]].commit)
                == old(Pressure())
    {
      assert forall y :: y in Removed(queue, k) ==> y in queue;
      PopParts(items, waiting, queue, cur, k);
      QueueWeightRemove(w, items, queue, k);
      cur' := cur + [queue[k]];
      queue := Removed(queue, k);
    }

    /** The inner loop of `Blame`: pops an item and all that follow for the same commit. */
    method PopGroup() returns (cur: seq<nat>)
      requires Steady() && Queued() && queue != []
      modifies this`queue
      ensures Popped(cur)
      ensures forall y :: y in old(queue) <==> y in queue || y in cur
      ensures forall y :: y in queue ==> y < |items| && Older(h, items[y].commit, items[cur[0]].commit)
      ensures Pressure() + Weight(w, items[cur[0]].commit) <= old(Pressure())
    {
      hide Acyclic, Inv, Quiet, Root, QueueWeight, Weight, Less;
      QueueCommits([]);
      var k := Best();
      cur := PopInto([], k);
      while queue != []
        modifies this`queue
        invariant Popped(cur)
        invariant forall y :: y in old(queue) <==> y in queue || y in cur
        invariant forall i :: 0 <= i < |queue| ==> items[queue[i]].commit in h.commits
        invariant items[cur[0]].commit in h.commits
        invariant forall i :: 0 <= i < |queue| ==> !Less(h, items[cur[0]].commit, items[queue[i]].commit)
        invariant Pressure() + Weight(w, items[cur[0]].commit) <= old(Pressure())
        decreases |queue|
      {
        QueueCommits(cur);
        k := Best();
        if items[queue[k]].commit != items[cur[0]].commit {
          forall i | 0 <= i < |queue| ensures Older(h, items[queue[i]].commit, items[cur[0]].commit) {
            FirstInLine(h, items[cur[0]].commit, items[queue[k]].commit, items[queue[i]].commit);
          }
          break;
        }
        cur := PopInto(cur, k);
      }
    }

    lemma QueueCommits(cur: seq<nat>)
      requires Inv(h, S(), {}) && Parts(items, waiting, queue, cur)
      ensures forall i :: 0 <= i < |queue| ==> queue[i] < |items| && items[queue[i]].commit in h.commits
    {
      forall i | 0 <= i < |queue| ensures items[queue[i]].commit in h.commits {
        WaitingNeeds(h, S(), queue[i]);
      }
    }

    /** As long as the first item is not done somebody waits in the queue, so the error
        about an empty queue cannot arise. */
    lemma SomebodyWaits()
      requires Steady() && Queued()
      ensures queue != []
    {
      var w := LowestWaits(h, S(), 0);
    }

    constructor (h: History, start: Hash)
      requires HasFile(h, start) && Acyclic(Parents(h))
      ensures this.h == h && this.start == start && Weighs(h, w, unit)
      ensures Steady() && Queued() && items == [FirstItem(h, start)] && queue == [0]
    {
      this.h, this.start := h, start;
      ghost var w', unit' := SomeWeights(h);
      w, unit := w', unit';
      new;
      items := [FirstItem(h, start)];
      queue := [0];
      out, live, waiting := [[]], {0}, {0};
      hide Acyclic, Inv, Quiet, Root, Parts, FirstItem, Weighs;
      FirstStep(h, start);
      assert S() == State(items, out, live, waiting);
    }

    /** One turn of the outer loop of `Blame`. */
    method Step() returns (r: Outcome)
      requires Acyclic(Parents(h)) && DiffSpellsOutTexts(h.diff) && Weighs(h, w, unit)
      requires Steady() && Queued()
      modifies this
      ensures !r.Corrupt?
      ensures r.MissingParent? ==> !CompleteFrom(Parents(h), start)
      ensures r.AllDone? ==> RootDone(h, start, items)
      ensures r.Continue? ==> Steady() && Queued() && Pressure() < old(Pressure())
      ensures StepTaken(h, Config(old(items), old(queue), Continue), Config(items, queue, r))
    {
      hide Acyclic, Inv, Quiet, Root, RootDone, GroupExpanded, Older, QueueWeight, Weight, Weighs, DiffSpellsOutTexts;
      SomebodyWaits();
      var cur := PopGroup();
      ghost var rest := queue;
      assert PopsTo(h, items, old(queue), cur, rest);
      r := AddBlames(cur);
    }

    /** The outer loop of `Blame`. */
    method Run() returns (r: Outcome)
      requires Acyclic(Parents(h)) && DiffSpellsOutTexts(h.diff) && Weighs(h, w, unit)
      requires Steady() && Queued()
      modifies this
      ensures r.AllDone? || r.MissingParent?
      ensures r.MissingParent? ==> !CompleteFrom(Parents(h), start)
      ensures r.AllDone? ==> RootDone(h, start, items)
      ensures RunsTo(h, Config(old(items), old(queue), Continue), Config(items, queue, r))
    {
      hide Acyclic, Inv, Quiet, RootDone, RunsTo, StepTaken;
      r := Continue;
      RunsNowhere(h, Config(items, queue, r));
      while r.Continue?
        invariant !r.Corrupt? && RunsTo(h, Config(old(items), old(queue), Continue), Config(items, queue, r))
        invariant r.Continue? ==> Steady() && Queued()
        invariant r.MissingParent? ==> !CompleteFrom(Parents(h), start)
        invariant r.AllDone? ==> RootDone(h, start, items)
        decreases r.Continue?, if r.Continue? then Pressure() else 0
      {
        ghost var before := Config(items, queue, r);
        r := Step();
        RunsOn(h, Config(old(items), old(queue), Continue), before, Config(items, queue, r));
      }
    }
  }

  datatype Result = LineCommits(commits: seq<Hash>) | FileNotFound | ParentNotFound

  /** The first item of a run that is done holds these commits. */
  ghost predicate Holds(end: Config, commits: seq<Hash>) {
    && end.outcome.AllDone? && end.items != [] && |end.items[0].needs| == |commits|
    && forall i :: 0 <= i < |commits| ==> end.items[0].needs[i].commit == Some(commits[i])
  }

  /** A run from the first item ends with these commits. */
  ghost predicate Ends(h: History, start: Hash, commits: seq<Hash>)
    requires HasFile(h, start)
  {
    exists end :: RunsTo(h, Config([FirstItem(h, start)], [0], Continue), end) && Holds(end, commits)
  }

  /** `Blame`: for every line of the file at `start`, an ancestor that introduced it, from
      which it was carried over unchanged.  A run always ends; it can fail only when the file
      does not exist or part of the history is missing. */
  method BlameFile(h: History, start: Hash) returns (r: Result)
    requires Acyclic(Parents(h)) && DiffSpellsOutTexts(h.diff) && start in h.commits
    ensures r.FileNotFound? <==> !HasFile(h, start)
    ensures HasFile(h, start) && CompleteFrom(Parents(h), start) ==> r.LineCommits?
    ensures r.LineCommits? ==> |r.commits| == |Lines(h, start)| && Ends(h, start, r.commits)
    ensures r.LineCommits? ==> forall i :: 0 <= i < |r.commits| ==> Blamed(h, Place(start, i), r.commits[i])
    ensures r.LineCommits? && Safe(h, start) ==>
              forall i :: 0 <= i < |r.commits| ==> r.commits[i] == Preferred(h, start, i)
  {
    hide Acyclic, Inv, Quiet, Parts, Weighs, Safe, Preferred, Blamed, Reaches, RunsTo, FirstItem;
    if !HasFile(h, start) {
      return FileNotFound;
    }
    var b := new Blamer(h, start);
    var outcome := b.Run();
    if outcome.MissingParent? {
      return ParentNotFound;
    }
    var lineToCommit := [];
    for i := 0 to |b.items[0].needs|
      invariant |lineToCommit| == i
      invariant forall j :: 0 <= j < i ==> Blamed(h, Place(start, j), lineToCommit[j])
      invariant forall j :: 0 <= j < i ==> b.items[0].needs[j].commit == Some(lineToCommit[j])
      invariant Safe(h, start) ==> forall j :: 0 <= j < i ==> lineToCommit[j] == Preferred(h, start, j)
    {
      lineToCommit := lineToCommit + [b.items[0].needs[i].commit.value];
    }
    assert Holds(Config(b.items, b.queue, outcome), lineToCommit);
    return LineCommits(lineToCommit);
  }
}
