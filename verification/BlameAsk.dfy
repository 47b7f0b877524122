/** The questions an item puts to its parents are well formed, and a run asks only
    finitely many of them. */
module BlameAsk {
  import opened Graph
  import opened BlameHistory
  import opened BlameNeeds
  import opened BlamePreference
  import opened BlameState
  import opened BlameSteps
  import opened Wrappers

  /** An item about to be expanded: none of its lines is answered yet. */
  ghost predicate Expandable(h: History, s: State, x: nat) {
    && Acyclic(Parents(h)) && DiffSpellsOutTexts(h.diff)
    && Shape(s) && ItemsInv(h, s) && x in s.live
    && Unresolved(s.items[x].needs) && s.items[x].contents == Lines(h, s.items[x].commit)
  }

  ghost predicate ParentOf(h: History, c: Hash, p: Hash) {
    c in h.commits && p in h.commits[c].parents && HasFile(h, p)
  }

  /** `p` is source number `no` of `c`. */
  ghost predicate SourceNo(h: History, c: Hash, p: Hash, no: int) {
    HasFile(h, c) && 0 <= no < |Sources(h, c)| && Sources(h, c)[no] == p
  }

  /** A waiting item that is taken up. */
  lemma OpenedExpandable(h: History, s: State, x: nat)
    requires Inv(h, s, {}) && x in s.waiting && DiffSpellsOutTexts(h.diff)
    ensures Inv(h, Opened(s, x), {x}) && Expandable(h, Opened(s, x), x) && AskedBelow(s.out, x, 0)
  {
    hide Acyclic, ItemOk, CountInv, BusyInv, AskedBelow, DiffSpellsOutTexts, Outs;
    OpenStep(h, s, x);
  }

  /** What a waiting item asks. */
  lemma WaitingNeeds(h: History, s: State, x: nat)
    requires Inv(h, s, {}) && x in s.waiting
    ensures HasFile(h, s.items[x].commit) && NeedsOk(h, s.items[x].commit, s.items[x].needs)
    ensures Unresolved(s.items[x].needs) && Reaches(Parents(h), s.items[0].commit, s.items[x].commit)
    ensures s.items[x].pending == 0
  {
    assert ItemOk(h, s.items, x);
  }

  lemma ParentRank(h: History, s: State, x: nat, p: Hash)
    requires Expandable(h, s, x) && ParentOf(h, s.items[x].commit, p)
    ensures Rank(Parents(h), p) < Rank(Parents(h), s.items[x].commit)
    ensures Rank(Parents(h), p) < Rank(Parents(h), s.items[0].commit)
    ensures Reaches(Parents(h), s.items[0].commit, p)
  {
    assert ItemOk(h, s.items, x);
    RankDecreases(Parents(h), s.items[x].commit, p);
    ReachesEdge(Parents(h), s.items[x].commit, p);
    ReachesTrans(Parents(h), s.items[0].commit, s.items[x].commit, p);
  }

  /** The question for a parent with the same blob. */
  function SameQuestion(it: Item, x: nat, p: Hash, parentNo: int): Item {
    Item(Some(x), [], p, it.contents, it.needs, 0, true, parentNo)
  }

  lemma SameQuestionFresh(h: History, s: State, x: nat, p: Hash, parentNo: int)
    requires Expandable(h, s, x) && SourceNo(h, s.items[x].commit, p, parentNo)
    requires Lines(h, p) == Lines(h, s.items[x].commit)
    ensures Fresh(h, s, SameQuestion(s.items[x], x, p, parentNo))
  {
    hide Held, SameReach, Safe, PrefSame, Carried;
    var it, q := s.items[x], SameQuestion(s.items[x], x, p, parentNo);
    assert ItemOk(h, s.items, x);
    ParentRank(h, s, x, p);
    forall i | 0 <= i < |it.needs|
      ensures Carried(h, Place(it.commit, it.needs[i].cur), Place(p, it.needs[i].cur))
    {
      CarriedStep(h, Place(it.commit, it.needs[i].cur), Place(p, it.needs[i].cur));
    }
    SameReachSelf(h, p);
    PrefSameSelf(h, p);
    assert ContOk(h, s.items, q, Conts(q)[0]);
  }

  lemma PrefSameSelf(h: History, p: Hash)
    requires HasFile(h, p)
    ensures PrefSame(h, p, p)
  {
  }

  /** The question that takes the place of an item which would only relay it. */
  function RelayedQuestion(it: Item, p: Hash): Item {
    Item(it.child, [], p, it.contents, it.needs, 0, true, it.parentNo)
  }

  /** The only source stands for whatever its child stood for. */
  lemma RelayedStands(h: History, start: Hash, child: Hash, commit: Hash, needs: seq<LineMap>, no: int, p: Hash)
    requires Acyclic(Parents(h)) && Stands(h, start, child, commit, needs, true, no)
    requires Sources(h, commit) == [p] && Lines(h, p) == Lines(h, commit)
    ensures Stands(h, start, child, p, needs, true, no)
  {
    hide LineMatch, SameReach, Safe, Preferred;
    assert p in Sources(h, commit);
    SameReachStep(h, commit, p);
    SameReachTrans(h, Sources(h, child)[no], commit, p);
    OnlySourceSame(h, commit, p);
  }

  lemma RelayedContOk(h: History, items: seq<Item>, it: Item, c: Cont, p: Hash)
    requires Acyclic(Parents(h)) && ContOk(h, items, it, c) && NeedsOkIn(h, it) && c.identical && c.needs == it.needs
    requires ParentOf(h, it.commit, p) && Sources(h, it.commit) == [p] && Lines(h, p) == Lines(h, it.commit)
    requires Rank(Parents(h), p) < Rank(Parents(h), it.commit)
    ensures ContOk(h, items, RelayedQuestion(it, p), c)
  {
    hide Stands, Carried, Sources, Rank, Acyclic;
    RelayedStands(h, items[0].commit, items[c.child].commit, it.commit, it.needs, c.parentNo, p);
    forall i | 0 <= i < |it.needs|
      ensures Carried(h, Place(items[c.child].commit, it.needs[i].cur), Place(p, it.needs[i].cur))
    {
      var line := it.needs[i].cur;
      CarriedStep(h, Place(it.commit, line), Place(p, line));
      assert Carried(h, Place(items[c.child].commit, Key(it.needs[i], true)), Place(it.commit, line));
      CarriedTrans(h, Place(items[c.child].commit, line), Place(it.commit, line), Place(p, line));
    }
  }

  /** The lines an item asks about are lines of its file. */
  ghost predicate NeedsOkIn(h: History, it: Item) {
    HasFile(h, it.commit) && forall i :: 0 <= i < |it.needs| ==> it.needs[i].cur < |Lines(h, it.commit)|
  }

  lemma RelayedQuestionFresh(h: History, s: State, x: nat, p: Hash)
    requires Expandable(h, s, x) && ParentOf(h, s.items[x].commit, p) && HasFile(h, s.items[x].commit)
    requires Lines(h, p) == Lines(h, s.items[x].commit)
    requires s.items[x].identical && Sources(h, s.items[x].commit) == [p]
    ensures Fresh(h, s, RelayedQuestion(s.items[x], p)) && Outs(RelayedQuestion(s.items[x], p)) == s.out[x]
  {
    hide Held, Stands, Carried, Sources, Acyclic, DiffSpellsOutTexts, Rank, Reaches;
    var it, q := s.items[x], RelayedQuestion(s.items[x], p);
    assert ItemOk(h, s.items, x);
    var c := Conts(it)[0];
    assert ContOk(h, s.items, it, c);
    ParentRank(h, s, x, p);
    RelayedContOk(h, s.items, it, c, p);
    assert Conts(q) == [c] && Conts(it) == [c];
    assert Outs(it) == [OutOf(c)] && Outs(q) == [OutOf(c)];
  }

  /** The question for a parent whose file differs. */
  function DiffQuestion(h: History, x: nat, p: Hash, get: seq<LineMap>, parentNo: int): Item
    requires HasFile(h, p)
  {
    Item(Some(x), [], p, Lines(h, p), get, 0, false, parentNo)
  }

  ghost function ParentAlignment(h: History, c: Hash, p: Hash): seq<Option<nat>>
    requires HasFile(h, c) && HasFile(h, p)
  {
    Alignment(h.diff(Lines(h, p), Lines(h, c)), 0)
  }

  /** The alignment covers the needed lines. */
  lemma AlignmentCovers(h: History, s: State, x: nat, p: Hash)
    requires Expandable(h, s, x) && HasFile(h, s.items[x].commit) && HasFile(h, p)
    ensures var a := ParentAlignment(h, s.items[x].commit, p);
            && (forall i :: 0 <= i < |s.items[x].needs| ==> s.items[x].needs[i].cur < |a|)
            && (s.items[x].needs == [] ==> a == [])
            && Increasing(s.items[x].needs)
  {
    assert ItemOk(h, s.items, x);
    var hunks := h.diff(Lines(h, p), Lines(h, s.items[x].commit));
    assert NewText(hunks) == Lines(h, s.items[x].commit);
    AlignmentSameText(hunks, 0);
  }

  lemma DiffQuestionFresh(h: History, s: State, x: nat, p: Hash, get: seq<LineMap>, parentNo: int)
    requires Expandable(h, s, x) && SourceNo(h, s.items[x].commit, p, parentNo)
    requires Lines(h, p) != Lines(h, s.items[x].commit) && get != []
    requires forall i :: 0 <= i < |s.items[x].needs| ==>
               s.items[x].needs[i].cur < |ParentAlignment(h, s.items[x].commit, p)|
    requires AsksFor(ParentAlignment(h, s.items[x].commit, p), s.items[x].needs, |s.items[x].needs|, get)
    ensures Fresh(h, s, DiffQuestion(h, x, p, get, parentNo))
  {
    hide Held, SameReach, Safe, PrefSame, Carried;
    var it, q := s.items[x], DiffQuestion(h, x, p, get, parentNo);
    PrefSameSelf(h, p);
    assert ItemOk(h, s.items, x);
    ParentRank(h, s, x, p);
    forall g | 0 <= g < |get|
      ensures get[g].cur < |Lines(h, p)|
      ensures Carried(h, Place(it.commit, get[g].orig), Place(p, get[g].cur))
    {
      assert LineMatch(h, it.commit, p, get[g].orig) == Some(get[g].cur);
      LineMatchSameText(h, it.commit, p, get[g].orig);
      CarriedStep(h, Place(it.commit, get[g].orig), Place(p, get[g].cur));
    }
    assert ContOk(h, s.items, q, Conts(q)[0]);
  }

  /** Item `x` waits for an answer about every line of its that source `k` also has. */
  ghost predicate HasAsked(h: History, s: State, x: nat, k: nat)
    requires x < |s.items| && HasFile(h, s.items[x].commit) && k < |Sources(h, s.items[x].commit)|
  {
    var it := s.items[x];
    forall i :: 0 <= i < |it.needs| && MatchAt(h, it.commit, k, it.needs[i].cur).Some? ==>
      Awaited(s.out, x, it.needs[i].cur, k)
  }

  /** The first `k` sources have been asked, and no other. */
  ghost predicate AskedUpTo(h: History, s: State, x: nat, k: nat)
    requires x < |s.items| && HasFile(h, s.items[x].commit)
  {
    && k <= |Sources(h, s.items[x].commit)| && AskedBelow(s.out, x, k)
    && forall j :: 0 <= j < k ==> HasAsked(h, s, x, j)
  }

  /** When every source has been asked, the item is covered. */
  lemma AllAsked(h: History, s: State, x: nat)
    requires x < |s.items| && HasFile(h, s.items[x].commit) && AskedUpTo(h, s, x, |Sources(h, s.items[x].commit)|)
    ensures Covered(h, s, x)
  {
    hide LineMatch, AskedBelow;
    forall i | 0 <= i < |s.items[x].needs|
      ensures LineCovered(h, s.out, x, s.items[x].commit, s.items[x].needs[i])
    {
      forall k: nat | k < |Sources(h, s.items[x].commit)|
                      && MatchAt(h, s.items[x].commit, k, s.items[x].needs[i].cur).Some?
        ensures Awaited(s.out, x, s.items[x].needs[i].cur, k)
      {
        assert HasAsked(h, s, x, k);
      }
    }
  }

  /** An item that has asked its parents and waits for them is suspended like any other. */
  lemma SuspendStep(h: History, s: State, x: nat)
    requires Inv(h, s, {x}) && x in s.live && x !in s.waiting && s.items[x].pending > 0 && Covered(h, s, x)
    ensures Inv(h, s, {})
  {
  }

  // --- Only finitely many questions ---------------------------------------------------

  ghost function Times(k: nat, unit: nat): nat {
    if k == 0 then 0 else Times(k - 1, unit) + unit
  }

  ghost function Pow(b: nat, n: nat): nat {
    if n == 0 then 1 else Times(b, Pow(b, n - 1))
  }

  lemma {:induction false} TimesIncreases(j: nat, k: nat, unit: nat)
    requires j < k
    ensures Times(j, unit) + unit <= Times(k, unit)
  {
    if j < k - 1 {
      TimesIncreases(j, k - 1, unit);
    }
  }

  lemma {:induction false} PowPositive(b: nat, n: nat)
    requires b > 0
    ensures Pow(b, n) > 0
  {
    if n > 0 {
      PowPositive(b, n - 1);
      TimesIncreases(0, b, Pow(b, n - 1));
    }
  }

  lemma {:induction false} PowMonotone(b: nat, m: nat, n: nat)
    requires b > 0 && m <= n
    ensures Pow(b, m) <= Pow(b, n)
  {
    if m < n {
      PowMonotone(b, m, n - 1);
      TimesIncreases(0, b, Pow(b, n - 1));
    }
  }

  /** More than any commit has parents. */
  ghost function Fanout(commits: map<Hash, Commit>): (b: nat)
    ensures b > 0 && forall c :: c in commits ==> |commits[c].parents| < b
  {
    if commits == map[] then 1
    else
      var c :| c in commits;
      var rest := commits - {c};
      assert forall d :: d in commits && d != c ==> d in rest && rest[d] == commits[d];
      Fanout(rest) + |commits[c].parents|
  }

  /** For every commit an upper bound for the number of questions a question about it can
      lead to, and one for the questions about each single parent. */
  ghost predicate Weighs(h: History, w: map<Hash, nat>, unit: map<Hash, nat>) {
    && w.Keys == unit.Keys == h.commits.Keys
    && (forall c, p :: c in h.commits && p in h.commits[c].parents && p in h.commits ==> w[p] <= unit[c])
    && (forall c :: c in h.commits ==> Times(|h.commits[c].parents|, unit[c]) < w[c])
  }

  ghost function Weight(w: map<Hash, nat>, c: Hash): nat {
    if c in w then w[c] else 0
  }

  lemma {:induction false} UnitCovers(h: History, b: nat, c: Hash, p: Hash)
    requires Acyclic(Parents(h)) && b > 0 && c in h.commits && p in h.commits[c].parents && p in h.commits
    ensures 0 < Rank(Parents(h), c) && Pow(b, Rank(Parents(h), p)) <= Pow(b, Rank(Parents(h), c) - 1)
  {
    hide Pow, Rank, Acyclic;
    assert Edge(Parents(h), c, p);
    RankDecreases(Parents(h), c, p);
    PowMonotone(b, Rank(Parents(h), p), Rank(Parents(h), c) - 1);
  }

  lemma WeightCovers(b: nat, n: nat, k: nat)
    requires n > 0 && k < b
    ensures Times(k, Pow(b, n - 1)) < Pow(b, n)
  {
    PowPositive(b, n - 1);
    TimesIncreases(k, b, Pow(b, n - 1));
  }

  /** In an acyclic history such bounds exist. */
  lemma SomeWeights(h: History) returns (w: map<Hash, nat>, unit: map<Hash, nat>)
    requires Acyclic(Parents(h))
    ensures Weighs(h, w, unit)
  {
    hide Pow, Times, Rank, Acyclic, Fanout;
    var b := Fanout(h.commits);
    forall c | c in h.commits ensures Rank(Parents(h), c) > 0 {
      RankPositive(Parents(h), c);
    }
    w := map c | c in h.commits :: Pow(b, Rank(Parents(h), c));
    unit := map c | c in h.commits :: Pow(b, Rank(Parents(h), c) - 1);
    forall c, p | c in h.commits && p in h.commits[c].parents && p in h.commits ensures w[p] <= unit[c] {
      UnitCovers(h, b, c, p);
    }
    forall c | c in h.commits ensures Times(|h.commits[c].parents|, unit[c]) < w[c] {
      WeightCovers(b, Rank(Parents(h), c), |h.commits[c].parents|);
    }
  }

  lemma {:induction false} TimesMonotone(j: nat, k: nat, unit: nat)
    requires j <= k
    ensures Times(j, unit) <= Times(k, unit)
  {
    if j < k {
      TimesIncreases(j, k, unit);
    }
  }

  lemma LighterParent(h: History, w: map<Hash, nat>, unit: map<Hash, nat>, c: Hash, p: Hash)
    requires Weighs(h, w, unit) && ParentOf(h, c, p)
    ensures Weight(w, p) < Weight(w, c)
  {
    TimesIncreases(0, |h.commits[c].parents|, unit[c]);
  }

  ghost function ItemWeight(w: map<Hash, nat>, items: seq<Item>, x: nat): nat {
    if x < |items| then Weight(w, items[x].commit) else 0
  }

  /** The questions that the queued items can still lead to. */
  ghost function QueueWeight(w: map<Hash, nat>, items: seq<Item>, queue: seq<nat>): nat {
    if queue == [] then 0
    else QueueWeight(w, items, queue[..|queue| - 1]) + ItemWeight(w, items, queue[|queue| - 1])
  }

  lemma {:induction false} QueueWeightRemove(w: map<Hash, nat>, items: seq<Item>, queue: seq<nat>, k: nat)
    requires k < |queue|
    ensures QueueWeight(w, items, queue) ==
              QueueWeight(w, items, queue[..k] + queue[k + 1..]) + ItemWeight(w, items, queue[k])
  {
    hide QueueWeight, ItemWeight;
    var n := |queue| - 1;
    var before := queue[..n];
    QueueWeightLast(w, items, before, queue[n]);
    assert queue == before + [queue[n]];
    if k == n {
      assert queue[..k] + queue[k + 1..] == before;
    } else {
      QueueWeightRemove(w, items, before, k);
      QueueWeightLast(w, items, before[..k] + before[k + 1..], queue[n]);
      assert queue[..k] + queue[k + 1..] == before[..k] + before[k + 1..] + [queue[n]];
    }
  }

  lemma {:induction false} QueueWeightLast(w: map<Hash, nat>, items: seq<Item>, queue: seq<nat>, x: nat)
    ensures QueueWeight(w, items, queue + [x]) == QueueWeight(w, items, queue) + ItemWeight(w, items, x)
  {
    hide ItemWeight;
    assert (queue + [x])[..|queue|] == queue;
  }

  lemma {:induction false} QueueWeightSame(w: map<Hash, nat>, was: seq<Item>, now: seq<Item>, queue: seq<nat>)
    requires forall i :: 0 <= i < |queue| ==> queue[i] < |was| && queue[i] < |now|
    requires forall i :: 0 <= i < |queue| ==> was[queue[i]].commit == now[queue[i]].commit
    ensures QueueWeight(w, was, queue) == QueueWeight(w, now, queue)
  {
    if queue != [] {
      QueueWeightSame(w, was, now, queue[..|queue| - 1]);
    }
  }

  lemma {:induction false} QueueWeightPush(w: map<Hash, nat>, was: seq<Item>, now: seq<Item>, queue: seq<nat>, x: nat)
    requires forall i :: 0 <= i < |queue| ==> queue[i] < |was| && queue[i] < |now|
    requires forall i :: 0 <= i < |queue| ==> was[queue[i]].commit == now[queue[i]].commit
    requires x < |now|
    ensures QueueWeight(w, now, queue + [x]) == QueueWeight(w, was, queue) + Weight(w, now[x].commit)
  {
    QueueWeightSame(w, was, now, queue);
    assert (queue + [x])[..|queue|] == queue;
  }
}
