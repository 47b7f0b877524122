/** The items of a blame run and the invariant that ties them together.

    An item asks one revision of the file about some of its lines.  Items point at the
    item that asked (their child); here a pointer is an index into the list of all items
    ever made.  A live item either waits in the queue or is suspended until the items it
    pushed have answered. */
module BlameState {
  import opened Graph
  import opened BlameHistory
  import opened BlameNeeds
  import opened BlamePreference
  import opened Wrappers

  /** `childToNeedsMap`: whom to answer, and about which lines. */
  datatype Cont = Cont(child: nat, needs: seq<LineMap>, identical: bool, parentNo: int)

  /** `queueItem`. */
  datatype Item = Item(child: Option<nat>, merged: seq<Cont>, commit: Hash, contents: seq<Line>,
                       needs: seq<LineMap>, pending: int, identical: bool, parentNo: int)

  /** Everybody an item has to answer: the merged children, else its one child, if any. */
  function Conts(it: Item): seq<Cont> {
    if it.merged != [] then it.merged
    else if it.child.None? then []
    else [Cont(it.child.value, it.needs, it.identical, it.parentNo)]
  }

  /** An answer still owed to item `child` about its lines `lines`, for its source `number`. */
  datatype Out = Out(child: nat, lines: set<nat>, number: int)

  ghost function OutOf(c: Cont): Out {
    Out(c.child, Keys(c.needs, c.identical), c.parentNo)
  }

  ghost function Outs(it: Item): seq<Out> {
    seq(|Conts(it)|, i requires 0 <= i < |Conts(it)| => OutOf(Conts(it)[i]))
  }

  /** The items, what each of them still owes, which of them are live, and which of those
      are waiting (queued, or popped and not expanded yet). */
  datatype State = State(items: seq<Item>, out: seq<seq<Out>>, live: set<nat>, waiting: set<nat>)

  // --- Counting outstanding answers ---------------------------------------------

  ghost function CountRow(row: seq<Out>, c: nat): nat {
    if row == [] then 0 else (if row[0].child == c then 1 else 0) + CountRow(row[1..], c)
  }

  /** How many answers item `c` is still waiting for. */
  ghost function Count(out: seq<seq<Out>>, c: nat): nat {
    if out == [] then 0 else Count(out[..|out| - 1], c) + CountRow(out[|out| - 1], c)
  }

  lemma {:induction false} CountUpdate(out: seq<seq<Out>>, x: nat, row: seq<Out>, c: nat)
    requires x < |out|
    ensures Count(out[x := row], c) + CountRow(out[x], c) == Count(out, c) + CountRow(row, c)
  {
    var n := |out| - 1;
    var out' := out[x := row];
    if x == n {
      assert out'[..n] == out[..n];
    } else {
      CountUpdate(out[..n], x, row, c);
      assert out'[..n] == out[..n][x := row];
    }
  }

  lemma {:induction false} CountPush(out: seq<seq<Out>>, row: seq<Out>, c: nat)
    ensures Count(out + [row], c) == Count(out, c) + CountRow(row, c)
  {
    assert (out + [row])[..|out|] == out;
  }

  lemma {:induction false} CountRowConcat(a: seq<Out>, b: seq<Out>, c: nat)
    ensures CountRow(a + b, c) == CountRow(a, c) + CountRow(b, c)
  {
    if a == [] {
      assert a + b == b;
    } else {
      CountRowConcat(a[1..], b, c);
      assert (a + b)[1..] == a[1..] + b;
    }
  }

  ghost predicate Owes(out: seq<seq<Out>>, y: nat, k: nat, c: nat) {
    y < |out| && k < |out[y]| && out[y][k].child == c
  }

  lemma {:induction false} CountRowWitness(row: seq<Out>, c: nat) returns (k: nat)
    requires CountRow(row, c) > 0
    ensures k < |row| && row[k].child == c
  {
    if row[0].child == c {
      k := 0;
    } else {
      k := CountRowWitness(row[1..], c);
      k := k + 1;
    }
  }

  lemma {:induction false} CountWitness(out: seq<seq<Out>>, c: nat) returns (y: nat, k: nat)
    requires Count(out, c) > 0
    ensures Owes(out, y, k, c)
  {
    var n := |out| - 1;
    if CountRow(out[n], c) > 0 {
      y := n;
      k := CountRowWitness(out[n], c);
    } else {
      y, k := CountWitness(out[..n], c);
    }
  }

  lemma {:induction false} CountRowPositive(row: seq<Out>, k: nat, c: nat)
    requires k < |row| && row[k].child == c
    ensures CountRow(row, c) > 0
  {
    if k > 0 {
      CountRowPositive(row[1..], k - 1, c);
    }
  }

  lemma {:induction false} CountPositive(out: seq<seq<Out>>, y: nat, k: nat, c: nat)
    requires Owes(out, y, k, c)
    ensures Count(out, c) > 0
  {
    var n := |out| - 1;
    if y == n {
      CountRowPositive(out[n], k, c);
    } else {
      CountPositive(out[..n], y, k, c);
    }
  }

  // --- The invariant --------------------------------------------------------------

  /** The lines an item still has to attribute, and the answers it has are right. */
  ghost predicate NeedsOk(h: History, commit: Hash, needs: seq<LineMap>)
    requires HasFile(h, commit)
  {
    && Increasing(needs)
    && (needs == [] ==> Lines(h, commit) == [])
    && (forall i :: 0 <= i < |needs| ==> needs[i].cur < |Lines(h, commit)|)
    && (forall i :: 0 <= i < |needs| && needs[i].commit.Some? ==>
          Blamed(h, Place(commit, needs[i].cur), needs[i].commit.value))
  }

  /** An answer for line `line` of `child` that came in for source `no` is the one that source
      is to be credited with. */
  ghost predicate RightFrom(h: History, start: Hash, child: Hash, line: nat, no: int, origin: Hash)
    requires HasFile(h, child)
  {
    && 0 <= no < |Sources(h, child)| && MatchAt(h, child, no, line).Some?
    && (Safe(h, start) ==> origin == Preferred(h, Sources(h, child)[no], MatchAt(h, child, no, line).value))
  }

  /** The answers an item has collected so far. */
  ghost predicate Held(h: History, start: Hash, commit: Hash, needs: seq<LineMap>)
    requires HasFile(h, commit)
  {
    forall i :: 0 <= i < |needs| && needs[i].commit.Some? ==>
      RightFrom(h, start, commit, needs[i].cur, needs[i].fromParentNo, needs[i].commit.value)
  }

  /** A question to `commit` stands for source `no` of `child`: it goes to that source, or to a
      commit from which the source has the file unchanged. */
  ghost predicate Stands(h: History, start: Hash, child: Hash, commit: Hash, needs: seq<LineMap>, identical: bool, no: int) {
    && HasFile(h, child) && HasFile(h, commit) && 0 <= no < |Sources(h, child)|
    && (if identical then Twin(h, child, no) && SameReach(h, Sources(h, child)[no], commit)
        else Sources(h, child)[no] == commit)
    && (Safe(h, start) ==> PrefSame(h, Sources(h, child)[no], commit))
    && forall i :: 0 <= i < |needs| ==> MatchAt(h, child, no, Key(needs[i], identical)) == Some(needs[i].cur)
  }

  /** The lines asked for are carried over from the lines of the child they answer. */
  ghost predicate ContOk(h: History, items: seq<Item>, it: Item, c: Cont) {
    && c.child < |items|
    && Rank(Parents(h), it.commit) < Rank(Parents(h), items[c.child].commit)
    && Increasing(c.needs) && Curs(c.needs) <= Curs(it.needs)
    && (forall i :: 0 <= i < |c.needs| ==>
          Carried(h, Place(items[c.child].commit, Key(c.needs[i], c.identical)), Place(it.commit, c.needs[i].cur)))
    && (if c.identical then SameLines(c.needs, items[c.child].needs) else c.needs != [] && IncreasingOrig(c.needs))
    && Stands(h, items[0].commit, items[c.child].commit, it.commit, c.needs, c.identical, c.parentNo)
  }

  ghost predicate ItemOk(h: History, items: seq<Item>, x: nat)
    requires x < |items|
  {
    var it := items[x];
    && HasFile(h, it.commit) && Reaches(Parents(h), items[0].commit, it.commit)
    && NeedsOk(h, it.commit, it.needs) && Held(h, items[0].commit, it.commit, it.needs)
    && (it.merged != [] ==> it.child.None? && !it.identical)
    && (it.identical ==> it.child.Some?)
    && (x == 0 <==> it.child.None? && it.merged == [])
    && (x != 0 ==> Rank(Parents(h), it.commit) < Rank(Parents(h), items[0].commit))
    && (forall i :: 0 <= i < |Conts(it)| ==> ContOk(h, items, it, Conts(it)[i]))
  }

  /** Some item still owes `x` an answer about `line`, for a source up to number `k`. */
  ghost predicate Awaited(out: seq<seq<Out>>, x: nat, line: nat, k: nat) {
    exists y: nat, i: nat :: Owes(out, y, i, x) && line in out[y][i].lines && out[y][i].number <= k
  }

  /** Every line of a suspended item that some source has is answered or awaited, and not only
      from sources that come later. */
  ghost predicate Covered(h: History, s: State, x: nat)
    requires x < |s.items| && HasFile(h, s.items[x].commit)
  {
    forall i :: 0 <= i < |s.items[x].needs| ==>
      LineCovered(h, s.out, x, s.items[x].commit, s.items[x].needs[i])
  }

  ghost predicate LineCovered(h: History, out: seq<seq<Out>>, x: nat, commit: Hash, l: LineMap)
    requires HasFile(h, commit)
  {
    forall k: nat :: k < |Sources(h, commit)| && MatchAt(h, commit, k, l.cur).Some? ==>
      (l.commit.Some? && l.fromParentNo <= k) || Awaited(out, x, l.cur, k)
  }

  ghost predicate Shape(s: State) {
    && |s.out| == |s.items|
    && (forall x :: x in s.live ==> x < |s.items|)
    && s.waiting <= s.live
    && 0 in s.live
  }

  /** Live items are well formed, and what they owe is what they say. */
  ghost predicate ItemsInv(h: History, s: State)
    requires Shape(s)
  {
    forall x :: x in s.live ==> ItemOk(h, s.items, x) && s.out[x] == Outs(s.items[x])
  }

  /** No item is owed two answers for the same source. */
  ghost predicate Distinct(out: seq<seq<Out>>) {
    forall y: nat, k: nat, y': nat, k': nat, c: nat ::
      Owes(out, y, k, c) && Owes(out, y', k', c) && out[y][k].number == out[y'][k'].number ==> y == y' && k == k'
  }

  /** Answers are owed to suspended items only, and each of those knows how many. */
  ghost predicate CountInv(s: State)
    requires Shape(s)
  {
    && Distinct(s.out)
    && (forall y: nat, k: nat, c: nat :: Owes(s.out, y, k, c) ==> c in s.live && c !in s.waiting)
    && (forall x :: x in s.live && x !in s.waiting ==> s.items[x].pending == Count(s.out, x))
  }

  /** A suspended item waits for at least one answer, and for one about every open line. */
  ghost predicate BusyInv(h: History, s: State, open: set<nat>)
    requires Shape(s) && ItemsInv(h, s)
  {
    forall x :: x in s.live && x !in s.waiting && x !in open ==> s.items[x].pending > 0 && Covered(h, s, x)
  }

  ghost predicate WaitInv(h: History, s: State)
    requires Shape(s) && ItemsInv(h, s)
  {
    forall x :: x in s.waiting ==>
      s.items[x].pending == 0 && Unresolved(s.items[x].needs) && s.items[x].contents == Lines(h, s.items[x].commit)
  }

  /** What every step of a run keeps.  Items in `open` are being worked on: they may have
      nothing outstanding. */
  ghost predicate Inv(h: History, s: State, open: set<nat>) {
    Acyclic(Parents(h)) && Shape(s) && ItemsInv(h, s) && CountInv(s) && BusyInv(h, s, open) && WaitInv(h, s)
  }

  /** Nobody but a live item owes an answer. */
  ghost predicate Quiet(s: State) {
    forall y :: 0 <= y < |s.out| && y !in s.live ==> s.out[y] == []
  }

  lemma {:induction false} LowestWaits(h: History, s: State, x: nat) returns (w: nat)
    requires Shape(s) && ItemsInv(h, s) && CountInv(s) && BusyInv(h, s, {}) && Quiet(s) && x in s.live
    ensures w in s.waiting
    decreases Rank(Parents(h), s.items[x].commit)
  {
    if x in s.waiting {
      w := x;
    } else {
      var y, k := CountWitness(s.out, x);
      assert y in s.live;
      assert s.out[y] == Outs(s.items[y]);
      assert ContOk(h, s.items, s.items[y], Conts(s.items[y])[k]);
      w := LowestWaits(h, s, y);
    }
  }

  /** Two versions of the items that differ only in the answers and their number. */
  ghost predicate SameItem(a: Item, b: Item) {
    && a.commit == b.commit && a.child == b.child && a.merged == b.merged
    && a.identical == b.identical && a.contents == b.contents && a.parentNo == b.parentNo
    && SameLines(a.needs, b.needs)
  }

  ghost predicate SameItems(a: seq<Item>, b: seq<Item>) {
    && |a| == |b|
    && forall x :: 0 <= x < |a| ==> SameItem(a[x], b[x])
  }

  lemma SameItemOuts(a: Item, b: Item)
    requires SameItem(a, b)
    ensures |Conts(a)| == |Conts(b)| && Outs(a) == Outs(b)
  {
    SameLinesKeys(a.needs, b.needs, a.identical);
    assert forall i :: 0 <= i < |Conts(a)| ==> OutOf(Conts(a)[i]) == OutOf(Conts(b)[i]);
  }

  lemma SameItemsContOk(h: History, a: seq<Item>, b: seq<Item>, it: Item, it': Item, i: nat)
    requires SameItems(a, b) && SameItem(it, it') && i < |Conts(it)| && ContOk(h, a, it, Conts(it)[i])
    ensures i < |Conts(it')| && ContOk(h, b, it', Conts(it')[i])
  {
    hide Carried, Twin, SameReach, Safe, PrefSame, LineMatch;
    SameItemOuts(it, it');
    SameLinesKeys(it.needs, it'.needs, true);
    var c, c' := Conts(it)[i], Conts(it')[i];
    assert SameLines(c.needs, c'.needs);
    SameLinesKeys(c.needs, c'.needs, true);
    assert SameItem(a[c.child], b[c.child]) && SameItem(a[0], b[0]);
    forall j | 0 <= j < |c'.needs|
      ensures Carried(h, Place(b[c'.child].commit, Key(c'.needs[j], c'.identical)), Place(it'.commit, c'.needs[j].cur))
    {
      assert Key(c'.needs[j], c'.identical) == Key(c.needs[j], c.identical);
    }
  }

  /** New answers do not disturb what an item asks for. */
  lemma SameItemsOk(h: History, a: seq<Item>, b: seq<Item>, x: nat)
    requires x < |a| && ItemOk(h, a, x) && SameItems(a, b) && HasFile(h, b[x].commit)
    requires NeedsOk(h, b[x].commit, b[x].needs) && Held(h, b[0].commit, b[x].commit, b[x].needs)
    ensures ItemOk(h, b, x)
  {
    assert SameItem(a[x], b[x]) && SameItem(a[0], b[0]);
    SameItemOuts(a[x], b[x]);
    forall i | 0 <= i < |Conts(b[x])| ensures ContOk(h, b, b[x], Conts(b[x])[i]) {
      SameItemsContOk(h, a, b, a[x], b[x], i);
    }
  }
}
