/** What the calls of a blame run do to its items, where that is simple enough to write down:
    items that hand a question or an answer on unchanged. */
module BlameMoves {
  import opened Graph
  import opened BlameHistory
  import opened BlameNeeds
  import opened BlamePreference
  import opened BlameState
  import opened BlameSteps
  import opened BlameAsk
  import opened Wrappers

  /** What `addBlames` reports: go on, the first item is done, or an error. */
  datatype Outcome = Continue | AllDone | MissingParent | Corrupt

  /** `Commit.Less`: by committer date, author date and hash. */
  predicate Less(h: History, a: Hash, b: Hash)
    requires a in h.commits && b in h.commits
  {
    var x, y := h.commits[a], h.commits[b];
    || x.committed < y.committed
    || (x.committed == y.committed && (x.authored < y.authored || (x.authored == y.authored && a < b)))
  }

  /** The priority queue hands out `b` before `a`. */
  ghost predicate Older(h: History, a: Hash, b: Hash) {
    a in h.commits && b in h.commits && Less(h, a, b)
  }

  /** Commits other than the first in line are older than it. */
  lemma FirstInLine(h: History, first: Hash, best: Hash, other: Hash)
    requires first in h.commits && best in h.commits && other in h.commits && best != first
    requires !Less(h, first, best) && !Less(h, best, other)
    ensures Older(h, other, first)
  {
  }

  /** An item that would only hand an answer on to its child. */
  predicate Relay(it: Item) {
    it.identical && it.merged == [] && it.pending == 1
  }

  /** A finished item gave its answers to a child that asked the same: the child waits for the
      others, or it is the first item and the run is done. */
  ghost predicate HandedOver(was: seq<Item>, child: nat, needs: seq<LineMap>, parentNo: int, now: seq<Item>, finished: bool)
    requires child < |was| && |needs| == |was[child].needs|
  {
    var c := was[child];
    var entered := Enter(c.needs, needs, parentNo);
    && (c.pending > 1 ==> !finished && now == was[child := c.(needs := entered, pending := c.pending - 1)])
    && (c.pending == 1 && c.child.None? && c.merged == [] ==>
          finished && now == was[child := c.(needs := Finish(entered, c.commit), pending := 0)])
  }

  /** The items after item `x` asked all of `parents` the same question. */
  function AskedSame(items: seq<Item>, x: nat, parents: seq<Hash>): seq<Item>
    requires x < |items|
  {
    items[x := items[x].(pending := items[x].pending + |parents|)]
    + seq(|parents|, k requires 0 <= k < |parents| => SameQuestion(items[x], x, parents[k], k))
  }

  function Behind(queue: seq<nat>, n: nat, k: nat): seq<nat> {
    queue + seq(k, i requires 0 <= i < k => n + i)
  }

  lemma AskedSameNext(was: seq<Item>, x: nat, parents: seq<Hash>, k: nat, mid: seq<Item>, now: seq<Item>)
    requires x < |was| && k < |parents| && mid == AskedSame(was, x, parents[..k])
    requires now == mid[x := mid[x].(pending := mid[x].pending + 1)] + [SameQuestion(mid[x], x, parents[k], k)]
    ensures |mid| == |was| + k && now == AskedSame(was, x, parents[..k + 1])
  {
  }

  lemma AskedSameCases(was: seq<Item>, x: nat, parents: seq<Hash>)
    requires x < |was|
    ensures AskedSame(was, x, parents)[x].pending == was[x].pending + |parents|
    ensures parents == [] ==> AskedSame(was, x, parents) == was
  {
  }

  lemma BehindNext(queue: seq<nat>, n: nat, k: nat)
    ensures Behind(queue, n, k) + [n + k] == Behind(queue, n, k + 1)
  {
  }

  /** Every source has the file of `c` itself. */
  ghost predicate AllTwins(h: History, c: Hash) {
    HasFile(h, c) && forall k :: 0 <= k < |Sources(h, c)| ==> Twin(h, c, k)
  }

  /** An item whose child asked the same. */
  ghost predicate HasSameChild(items: seq<Item>, x: nat) {
    && x < |items| && items[x].merged == [] && items[x].identical && items[x].child.Some?
    && items[x].child.value < |items| && items[x].child.value != x
    && |items[items[x].child.value].needs| == |items[x].needs|
  }

  ghost predicate FinishedSame(was: seq<Item>, x: nat, now: seq<Item>, finished: bool)
    requires HasSameChild(was, x)
  {
    var it := was[x];
    var r := Finish(it.needs, it.commit);
    HandedOver(was[x := it.(needs := r)], it.child.value, r, it.parentNo, now, finished)
  }

  /** Item `x` asked its parents, or was finished. */
  ghost predicate Asked(h: History, was: seq<Item>, queue: seq<nat>, x: nat, now: seq<Item>, queue': seq<nat>, r: Outcome)
    requires x < |was| && HasFile(h, was[x].commit)
  {
    var ps := Sources(h, was[x].commit);
    if ps == [] then
      (HasSameChild(was, x) ==> FinishedSame(was, x, now, r.AllDone?)) && (r.Continue? ==> queue' == queue)
    else
      AllTwins(h, was[x].commit) ==>
        r.Continue? && now == AskedSame(was, x, ps) && queue' == Behind(queue, |was|, |ps|)
  }

  /** Item `x` stepped aside for its only source, or asked. */
  ghost predicate Moved(h: History, was: seq<Item>, queue: seq<nat>, x: nat, now: seq<Item>, queue': seq<nat>, r: Outcome)
    requires x < |was| && HasFile(h, was[x].commit)
  {
    var it, ps := was[x], Sources(h, was[x].commit);
    if |ps| == 1 && it.merged == [] && it.identical && Twin(h, it.commit, 0) then
      r.Continue? && now == was + [RelayedQuestion(it, ps[0])] && queue' == queue + [|was|]
    else Asked(h, was, queue, x, now, queue', r)
  }

  /** Item `x` found a parent missing, or moved. */
  ghost predicate Expanded(h: History, was: seq<Item>, queue: seq<nat>, x: nat, now: seq<Item>, queue': seq<nat>,
                           r: Outcome)
  {
    && x < |was| && HasFile(h, was[x].commit)
    && (r.MissingParent? <==> exists p :: p in h.commits[was[x].commit].parents && p !in h.commits)
    && !r.Corrupt? && (!r.MissingParent? ==> Moved(h, was, queue, x, now, queue', r))
  }

  /** All items of a group hand on what one child asked. */
  ghost predicate SameGroup(items: seq<Item>, cur: seq<nat>) {
    && |cur| > 1 && (forall j :: 0 <= j < |cur| ==> cur[j] < |items|)
    && items[cur[0]].child.Some? && items[cur[0]].child.value < |items|
    && forall j :: 0 <= j < |cur| ==> items[cur[j]].identical && items[cur[j]].child == items[cur[0]].child
  }

  /** Only the first item of such a group is left. */
  ghost function FirstOf(items: seq<Item>, cur: seq<nat>): seq<Item>
    requires SameGroup(items, cur)
  {
    var x := cur[0];
    var child := items[x].child.value;
    items[child := items[child].(pending := items[child].pending - |cur| + 1)]
         [x := items[x].(parentNo := LowestNo(items, cur, |cur|))]
  }

  // --- Passing over relays --------------------------------------------------------------

  ghost predicate AtRelay(items: seq<Item>, x: nat) {
    && x < |items| && items[x].child.Some? && items[x].child.value < |items| && Relay(items[items[x].child.value])
  }

  /** Item `x` answers to the child of its child, for the source that one stood for. */
  ghost function Hop(items: seq<Item>, x: nat): seq<Item> {
    if !AtRelay(items, x) then items
    else
      var relay := items[items[x].child.value];
      items[x := items[x].(child := relay.child, parentNo := relay.parentNo)]
  }

  ghost function Hops(items: seq<Item>, x: nat, n: nat): seq<Item> {
    if n == 0 then items else Hop(Hops(items, x, n - 1), x)
  }

  /** Item `x` passed over relays for as long as there were any. */
  ghost predicate PassedRelays(was: seq<Item>, x: nat, now: seq<Item>) {
    exists n: nat :: now == Hops(was, x, n) && !AtRelay(now, x)
  }

  /** What `addBlames` does with the items of one commit: a single item is expanded as it is, and
      of items that hand on what one child asked the first is, after passing over relays. */
  ghost predicate GroupExpanded(h: History, was: seq<Item>, queue: seq<nat>, cur: seq<nat>, now: seq<Item>,
                                queue': seq<nat>, r: Outcome)
  {
    && (|cur| == 1 ==> Expanded(h, was, queue, cur[0], now, queue', r))
    && (SameGroup(was, cur) ==>
          exists mid :: PassedRelays(FirstOf(was, cur), cur[0], mid) && Expanded(h, mid, queue, cur[0], now, queue', r))
  }

  lemma {:induction false} HopsStay(items: seq<Item>, x: nat, n: nat)
    requires !AtRelay(items, x)
    ensures Hops(items, x, n) == items
  {
    if n > 0 {
      HopsStay(items, x, n - 1);
    }
  }

  lemma {:induction false} HopsAfter(items: seq<Item>, x: nat, n: nat)
    ensures Hops(items, x, n + 1) == Hops(Hop(items, x), x, n)
  {
    if n > 0 {
      HopsAfter(items, x, n - 1);
    }
  }

  /** One relay, and none behind it. */
  lemma OneRelay(was: seq<Item>, x: nat, now: seq<Item>)
    requires PassedRelays(was, x, now) && AtRelay(was, x) && !AtRelay(Hop(was, x), x)
    ensures now == Hop(was, x)
  {
    var n: nat :| now == Hops(was, x, n) && !AtRelay(now, x);
    if n > 0 {
      HopsAfter(was, x, n - 1);
      HopsStay(Hop(was, x), x, n - 1);
    }
  }

  // --- Whole runs ------------------------------------------------------------------------

  datatype Config = Config(items: seq<Item>, queue: seq<nat>, outcome: Outcome)

  /** `cur` is all that the queue holds about the commit it hands out first. */
  ghost predicate PopsTo(h: History, items: seq<Item>, queue: seq<nat>, cur: seq<nat>, rest: seq<nat>) {
    && cur != [] && (forall y :: y in queue <==> y in rest || y in cur)
    && (forall j :: 0 <= j < |cur| ==> cur[j] < |items|)
    && (forall j :: 0 <= j < |cur| ==> items[cur[j]].commit == items[cur[0]].commit)
    && (forall i, j :: 0 <= i < j < |cur| ==> cur[i] != cur[j])
    && (forall y :: y in rest ==> y !in cur && y < |items| && Older(h, items[y].commit, items[cur[0]].commit))
  }

  /** One turn of the outer loop of `Blame`. */
  ghost predicate StepTaken(h: History, a: Config, b: Config) {
    && a.outcome.Continue?
    && exists cur, rest ::
         PopsTo(h, a.items, a.queue, cur, rest) && GroupExpanded(h, a.items, rest, cur, b.items, b.queue, b.outcome)
  }

  ghost predicate Trace(h: History, t: seq<Config>) {
    |t| > 0 && forall i :: 0 <= i < |t| - 1 ==> StepTaken(h, t[i], t[i + 1])
  }

  ghost predicate RunsTo(h: History, a: Config, b: Config) {
    exists t :: Trace(h, t) && t[0] == a && t[|t| - 1] == b
  }

  lemma RunsNowhere(h: History, a: Config)
    ensures RunsTo(h, a, a)
  {
    assert Trace(h, [a]);
  }

  lemma RunsOn(h: History, a: Config, b: Config, c: Config)
    requires RunsTo(h, a, b) && StepTaken(h, b, c)
    ensures RunsTo(h, a, c)
  {
    var t :| Trace(h, t) && t[0] == a && t[|t| - 1] == b;
    var u := t + [c];
    forall i | 0 <= i < |u| - 1 ensures StepTaken(h, u[i], u[i + 1]) {
      if i < |t| - 1 {
        assert StepTaken(h, t[i], t[i + 1]);
      }
    }
    assert Trace(h, u);
  }

  /** A run either has not moved, or its first step is followed by the rest of it. */
  lemma FirstTurn(h: History, a: Config, b: Config) returns (next: Config)
    requires RunsTo(h, a, b) && a != b
    ensures StepTaken(h, a, next) && RunsTo(h, next, b)
  {
    var t :| Trace(h, t) && t[0] == a && t[|t| - 1] == b;
    next := t[1];
    assert StepTaken(h, t[0], t[1]);
    forall i | 0 <= i < |t[1..]| - 1 ensures StepTaken(h, t[1..][i], t[1..][i + 1]) {
      assert StepTaken(h, t[i + 1], t[i + 2]);
    }
    assert Trace(h, t[1..]);
  }
}
