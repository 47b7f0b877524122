/** A line that three parents have, credited to the wrong one.

    Commit `c` has the parents `p0`, `p1` and `p2`, and `p1` and `p2` have the parent `q`; the file
    is the same everywhere.  By the time the two items about `q` are taken up, `p0` has answered.
    The items collapse into one, `c` has nothing else outstanding, and so it is passed over
    together with the answer it holds. */
module BlameExample {
  import opened Graph
  import opened BlameHistory
  import opened BlameNeeds
  import opened BlamePreference
  import opened BlameState
  import opened BlameSteps
  import opened BlameAsk
  import opened BlameMoves
  import opened Blame
  import opened Wrappers

  datatype Six = Six(d: Hash, c: Hash, p0: Hash, p1: Hash, p2: Hash, q: Hash, line: Line)

  ghost predicate Has(h: History, x: Hash, parents: seq<Hash>, line: Line) {
    x in h.commits && h.commits[x].parents == parents && h.commits[x].file == Present([line])
  }

  /** The six commits are part of the history, and `p0` is the newest of the last four. */
  ghost predicate Fork(h: History, n: Six) {
    && Has(h, n.d, [n.c], n.line) && Has(h, n.c, [n.p0, n.p1, n.p2], n.line)
    && Has(h, n.p0, [], n.line) && Has(h, n.p1, [n.q], n.line) && Has(h, n.p2, [n.q], n.line)
    && Has(h, n.q, [], n.line)
    && Older(h, n.q, n.p2) && Older(h, n.p2, n.p1) && Older(h, n.p1, n.p0)
  }

  lemma {:induction false} AllHaveFile(h: History, parents: seq<Hash>)
    requires forall p :: p in parents ==> HasFile(h, p)
    ensures WithFile(h, parents) == parents
  {
    if parents != [] {
      AllHaveFile(h, parents[..|parents| - 1]);
    }
  }

  /** Every parent is a source, and has the same file. */
  lemma ForkSources(h: History, n: Six, x: Hash)
    requires Fork(h, n) && x in {n.d, n.c, n.p0, n.p1, n.p2, n.q}
    ensures HasFile(h, x) && Lines(h, x) == [n.line] && Sources(h, x) == h.commits[x].parents && AllTwins(h, x)
    ensures forall p :: p in h.commits[x].parents ==> p in h.commits
  {
    AllHaveFile(h, h.commits[x].parents);
  }

  // --- What the preference asks for -------------------------------------------------------

  lemma {:induction false} PrefersFirst(h: History, n: Six)
    requires Fork(h, n) && Acyclic(Parents(h))
    ensures Preferred(h, n.d, 0) == n.p0 && Preferred(h, n.q, 0) == n.q
  {
    hide Preferred, Older, Sources;
    ForkSources(h, n, n.d);
    ForkSources(h, n, n.c);
    ForkSources(h, n, n.p0);
    ForkSources(h, n, n.q);
    PreferredIs(h, n.d, 0, 0);
    PreferredIs(h, n.c, 0, 0);
    PreferredIs(h, n.p0, 0, 0);
    PreferredIs(h, n.q, 0, 0);
  }

  // --- What the run does --------------------------------------------------------------------

  function Open(): seq<LineMap> {
    [LineMap(0, 0, None, -1)]
  }

  function AnswerOf(commit: Hash, from: int): seq<LineMap> {
    [LineMap(0, 0, Some(commit), from)]
  }

  function First(n: Six, pending: int): Item {
    Item(None, [], n.d, [n.line], Open(), pending, false, 0)
  }

  function Ask(n: Six, child: nat, commit: Hash, no: int): Item {
    Item(Some(child), [], commit, [n.line], Open(), 0, true, no)
  }

  /** The items after the first two turns, and after each of the next three. */
  function Items1(n: Six): seq<Item> {
    [First(n, 1), Ask(n, 0, n.c, 0)]
  }

  function Items2(n: Six): seq<Item> {
    [First(n, 1), Ask(n, 0, n.c, 0).(pending := 3), Ask(n, 1, n.p0, 0), Ask(n, 1, n.p1, 1), Ask(n, 1, n.p2, 2)]
  }

  function Items3(n: Six): seq<Item> {
    [First(n, 1), Ask(n, 0, n.c, 0).(pending := 2, needs := AnswerOf(n.p0, 0)),
     Ask(n, 1, n.p0, 0).(needs := AnswerOf(n.p0, -1)), Ask(n, 1, n.p1, 1), Ask(n, 1, n.p2, 2)]
  }

  function Items4(n: Six): seq<Item> {
    Items3(n) + [Ask(n, 1, n.q, 1)]
  }

  function Items5(n: Six): seq<Item> {
    Items4(n) + [Ask(n, 1, n.q, 2)]
  }

  /** A run that has come to `items`, with `queued` in the queue. */
  ghost predicate At(a: Config, items: seq<Item>, queued: set<nat>) {
    a.outcome.Continue? && a.items == items && forall y :: y in a.queue <==> y in queued
  }

  lemma SecondDiffers(s: seq<nat>)
    requires forall i, j :: 0 <= i < j < |s| ==> s[i] != s[j]
    ensures |s| <= 1 || s[0] != s[1]
  {
  }

  lemma EmptyOrNot(s: seq<nat>)
    ensures s == [] || exists y :: y in s
  {
    assert s != [] ==> s[0] in s;
  }

  /** A single newest item is handed out alone. */
  lemma PopsOne(h: History, items: seq<Item>, queue: seq<nat>, cur: seq<nat>, rest: seq<nat>, x: nat)
    requires PopsTo(h, items, queue, cur, rest) && x in queue && x < |items|
    requires forall y :: y in queue && y != x ==> y < |items| && Older(h, items[y].commit, items[x].commit)
    ensures cur == [x] && forall y :: y in rest <==> y in queue && y != x
  {
    assert x in cur;
    assert forall j :: 0 <= j < |cur| ==> cur[j] in queue;
    assert forall j :: 0 <= j < |cur| ==> cur[j] == x;
    SecondDiffers(cur);
  }

  /** A turn that expands the one newest item. */
  lemma OneTurn(h: History, a: Config, b: Config, items: seq<Item>, queued: set<nat>, x: nat) returns (rest: seq<nat>)
    requires StepTaken(h, a, b) && At(a, items, queued) && x in queued && x < |items|
    requires forall y :: y in queued && y != x ==> y < |items| && Older(h, items[y].commit, items[x].commit)
    ensures Expanded(h, items, rest, x, b.items, b.queue, b.outcome)
    ensures forall y :: y in rest <==> y in queued && y != x
  {
    hide Expanded, Older, SameGroup;
    var cur, r :| PopsTo(h, a.items, a.queue, cur, r) && GroupExpanded(h, a.items, r, cur, b.items, b.queue, b.outcome);
    PopsOne(h, items, a.queue, cur, r, x);
    rest := r;
  }

  lemma Turn1(h: History, n: Six, a: Config, b: Config)
    requires Fork(h, n) && StepTaken(h, a, b) && At(a, [First(n, 0)], {0})
    ensures At(b, Items1(n), {1})
  {
    hide Older, StepTaken, Sources, WithFile;
    ForkSources(h, n, n.d);
    var rest := OneTurn(h, a, b, [First(n, 0)], {0}, 0);
    EmptyOrNot(rest);
    assert b.queue == [1];
  }

  lemma Turn2(h: History, n: Six, a: Config, b: Config)
    requires Fork(h, n) && StepTaken(h, a, b) && At(a, Items1(n), {1})
    ensures At(b, Items2(n), {2, 3, 4})
  {
    hide Older, StepTaken, Sources, WithFile;
    ForkSources(h, n, n.c);
    var rest := OneTurn(h, a, b, Items1(n), {1}, 1);
    EmptyOrNot(rest);
    assert b.queue == [2, 3, 4];
  }

  lemma OlderTrans(h: History, a: Hash, b: Hash, c: Hash)
    requires Older(h, a, b) && Older(h, b, c)
    ensures Older(h, a, c)
  {
  }

  /** `p0` answers `c`. */
  lemma Turn3(h: History, n: Six, a: Config, b: Config)
    requires Fork(h, n) && StepTaken(h, a, b) && At(a, Items2(n), {2, 3, 4})
    ensures At(b, Items3(n), {3, 4})
  {
    hide Older, StepTaken, Sources, WithFile;
    ForkSources(h, n, n.p0);
    OlderTrans(h, n.p2, n.p1, n.p0);
    var rest := OneTurn(h, a, b, Items2(n), {2, 3, 4}, 2);
    assert HasSameChild(Items2(n), 2);
    assert Finish(Open(), n.p0) == AnswerOf(n.p0, -1);
    assert Enter(Open(), AnswerOf(n.p0, -1), 0) == AnswerOf(n.p0, 0);
    assert b.items == Items3(n);
  }

  /** `p1` and `p2` step aside for `q`. */
  lemma Turn4(h: History, n: Six, a: Config, b: Config)
    requires Fork(h, n) && StepTaken(h, a, b) && At(a, Items3(n), {3, 4})
    ensures At(b, Items4(n), {4, 5})
  {
    hide Older, StepTaken, Sources, WithFile;
    ForkSources(h, n, n.p1);
    var rest := OneTurn(h, a, b, Items3(n), {3, 4}, 3);
    assert Twin(h, n.p1, 0);
    assert b.queue == rest + [5];
  }

  lemma Turn5(h: History, n: Six, a: Config, b: Config)
    requires Fork(h, n) && StepTaken(h, a, b) && At(a, Items4(n), {4, 5})
    ensures At(b, Items5(n), {5, 6})
  {
    hide Older, StepTaken, Sources, WithFile;
    ForkSources(h, n, n.p2);
    var rest := OneTurn(h, a, b, Items4(n), {4, 5}, 4);
    assert Twin(h, n.p2, 0);
    assert b.queue == rest + [6];
  }

  /** Two items about the same commit are handed out together. */
  lemma PopsTwo(h: History, items: seq<Item>, queue: seq<nat>, cur: seq<nat>, rest: seq<nat>, x: nat, y: nat)
    requires PopsTo(h, items, queue, cur, rest) && x != y && x < |items| && y < |items|
    requires (forall z :: z in queue <==> z == x || z == y) && items[x].commit == items[y].commit
    ensures cur == [x, y] || cur == [y, x]
  {
    assert forall j :: 0 <= j < |cur| ==> cur[j] in queue;
    assert x in cur && y in cur;
    ThirdDiffers(cur);
  }

  lemma ThirdDiffers(s: seq<nat>)
    requires forall i, j :: 0 <= i < j < |s| ==> s[i] != s[j]
    ensures |s| <= 2 || (s[0] != s[1] && s[0] != s[2] && s[1] != s[2])
  {
  }

  /** The item that is left passes over `c`. */
  lemma Collapses(n: Six, cur: seq<nat>, mid: seq<Item>)
    requires cur == [5, 6] || cur == [6, 5]
    requires SameGroup(Items5(n), cur) && PassedRelays(FirstOf(Items5(n), cur), cur[0], mid)
    ensures |mid| == 7 && mid[0] == First(n, 1) && mid[cur[0]] == Ask(n, 0, n.q, 0)
  {
    var was := FirstOf(Items5(n), cur);
    assert LowestNo(Items5(n), cur, 2) == 1;
    assert was[1].pending == 1 && was[cur[0]] == Ask(n, 1, n.q, 1);
    OneRelay(was, cur[0], mid);
  }

  /** So `q` answers `d`. */
  lemma Turn6(h: History, n: Six, a: Config, b: Config)
    requires Fork(h, n) && StepTaken(h, a, b) && At(a, Items5(n), {5, 6})
    ensures b.outcome.AllDone? && b.items != [] && b.items[0].needs == AnswerOf(n.q, 0)
  {
    hide Older, Sources, WithFile, PassedRelays, FirstOf, Expanded, Hops;
    var cur, rest :|
      PopsTo(h, a.items, a.queue, cur, rest) && GroupExpanded(h, a.items, rest, cur, b.items, b.queue, b.outcome);
    PopsTwo(h, a.items, a.queue, cur, rest, 5, 6);
    assert SameGroup(a.items, cur);
    var mid :| PassedRelays(FirstOf(a.items, cur), cur[0], mid)
               && Expanded(h, mid, rest, cur[0], b.items, b.queue, b.outcome);
    Collapses(n, cur, mid);
    LastAnswer(h, n, mid, rest, cur[0], b);
  }

  lemma LastAnswer(h: History, n: Six, mid: seq<Item>, rest: seq<nat>, x: nat, b: Config)
    requires Fork(h, n) && 0 < x < |mid| && mid[0] == First(n, 1) && mid[x] == Ask(n, 0, n.q, 0)
    requires Expanded(h, mid, rest, x, b.items, b.queue, b.outcome)
    ensures b.outcome.AllDone? && b.items != [] && b.items[0].needs == AnswerOf(n.q, 0)
  {
    hide Older, Sources, WithFile;
    ForkSources(h, n, n.q);
    assert HasSameChild(mid, x);
    assert Finish(Open(), n.q) == AnswerOf(n.q, -1);
    assert Enter(Open(), AnswerOf(n.q, -1), 0) == AnswerOf(n.q, 0);
    assert Finish(AnswerOf(n.q, 0), n.d) == AnswerOf(n.q, 0);
  }

  /** Every run from `d` ends with `q`. */
  lemma RunEnds(h: History, n: Six, commits: seq<Hash>)
    requires Fork(h, n) && HasFile(h, n.d) && Ends(h, n.d, commits)
    ensures commits == [n.q]
  {
    hide Older, StepTaken, RunsTo, Has;
    ForkSources(h, n, n.d);
    var first := Config([FirstItem(h, n.d)], [0], Continue);
    assert FirstItem(h, n.d) == First(n, 0) by { FirstIs(h, n); }
    var end :| RunsTo(h, first, end) && Holds(end, commits);
    var s1 := FirstTurn(h, first, end);
    Turn1(h, n, first, s1);
    var s2 := FirstTurn(h, s1, end);
    Turn2(h, n, s1, s2);
    var s3 := FirstTurn(h, s2, end);
    Turn3(h, n, s2, s3);
    var s4 := FirstTurn(h, s3, end);
    Turn4(h, n, s3, s4);
    var s5 := FirstTurn(h, s4, end);
    Turn5(h, n, s4, s5);
    var s6 := FirstTurn(h, s5, end);
    Turn6(h, n, s5, s6);
    DoneIsEnd(h, s6, end);
    assert end.items[0].needs[0].commit == Some(n.q);
  }

  lemma FirstIs(h: History, n: Six)
    requires Fork(h, n) && HasFile(h, n.d)
    ensures FirstItem(h, n.d) == First(n, 0)
  {
    assert FirstItem(h, n.d).needs == Open();
  }

  lemma DoneIsEnd(h: History, a: Config, b: Config)
    requires RunsTo(h, a, b) && !a.outcome.Continue?
    ensures a == b
  {
    var t :| Trace(h, t) && t[0] == a && t[|t| - 1] == b;
    assert |t| > 1 ==> StepTaken(h, t[0], t[1]);
  }

  lemma ForkComplete(h: History, n: Six)
    requires Fork(h, n)
    ensures CompleteFrom(Parents(h), n.d)
  {
    hide Older, Reaches;
    var six := {n.d, n.c, n.p0, n.p1, n.p2, n.q};
    assert ClosedUnder(Parents(h), six);
    forall b | Reaches(Parents(h), n.d, b) ensures b in Parents(h) {
      ClosedReaches(Parents(h), six, n.d, b);
    }
  }

  lemma NewestNotOldest(h: History, n: Six)
    requires Fork(h, n)
    ensures n.p0 != n.q
  {
    OlderTrans(h, n.q, n.p2, n.p1);
    OlderTrans(h, n.q, n.p1, n.p0);
  }

  /** Whatever else the history holds: the line is credited to `q`, though the first parent of `c`
      has it too and introduced it itself. */
  method FirstParentPassedOver(h: History, n: Six) returns (r: Result)
    requires Acyclic(Parents(h)) && DiffSpellsOutTexts(h.diff) && Fork(h, n)
    ensures r == LineCommits([n.q])
    ensures Preferred(h, n.d, 0) == n.p0 && n.p0 != n.q && !Safe(h, n.d)
  {
    hide Older, Safe, Preferred, Blamed, Ends, Acyclic, CompleteFrom, Sources, DiffSpellsOutTexts;
    ForkComplete(h, n);
    PrefersFirst(h, n);
    ForkSources(h, n, n.d);
    r := BlameFile(h, n.d);
    RunEnds(h, n, r.commits);
    assert r.commits[0] == n.q;
    assert n.p0 != n.q by { NewestNotOldest(h, n); }
  }

  // --- A history of this shape ----------------------------------------------------------------

  function Node(parents: seq<Hash>, date: int): Commit {
    Commit(parents, date, date, Present(["line"]))
  }

  function Rewrite(a: seq<Line>, b: seq<Line>): seq<Hunk> {
    [Hunk(Delete, a), Hunk(Insert, b)]
  }

  function SmallHistory(): History {
    History(map[6 := Node([5], 6), 5 := Node([4, 3, 2], 5), 4 := Node([], 4), 3 := Node([1], 3), 2 := Node([1], 2),
                1 := Node([], 1)], Rewrite)
  }

  lemma {:induction false} Descends(g: Edges, p: seq<Hash>, k: nat)
    requires forall a, b :: Edge(g, a, b) ==> b < a
    requires IsPath(g, p) && k < |p|
    ensures p[k] <= p[0] && (k > 0 ==> p[k] < p[0])
  {
    if k > 0 {
      Descends(g, p, k - 1);
      assert Edge(g, p[k - 1], p[k]);
    }
  }

  lemma RewriteSpells(a: seq<Line>, b: seq<Line>)
    ensures OldText(Rewrite(a, b)) == a && NewText(Rewrite(a, b)) == b
  {
    var rest := [Hunk(Insert, b)];
    assert Rewrite(a, b)[1..] == rest && rest[1..] == [];
    assert a + [] == a && b + [] == b;
    assert OldText(rest) == [] && NewText(rest) == b;
  }

  /** There is such a history. */
  lemma SmallFork()
    ensures Acyclic(Parents(SmallHistory())) && DiffSpellsOutTexts(SmallHistory().diff)
    ensures Fork(SmallHistory(), Six(6, 5, 4, 3, 2, 1, "line"))
  {
    var g := Parents(SmallHistory());
    assert forall a, b :: Edge(g, a, b) ==> b < a;
    forall a, b | Edge(g, a, b) ensures !Reaches(g, b, a) {
      forall p | IsPath(g, p) ensures p[|p| - 1] <= p[0] {
        Descends(g, p, |p| - 1);
      }
    }
    forall a, b ensures OldText(Rewrite(a, b)) == a && NewText(Rewrite(a, b)) == b {
      RewriteSpells(a, b);
    }
  }
}
