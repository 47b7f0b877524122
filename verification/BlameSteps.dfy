/** Each change a blame run makes to its items keeps the invariant. */
module BlameSteps {
  import opened Graph
  import opened BlameHistory
  import opened BlameNeeds
  import opened BlamePreference
  import opened BlameState
  import opened Wrappers

  /** Item `z` keeps its lines covered when nothing about it changed and every line it
      awaits is still awaited. */
  lemma StillCovered(h: History, s: State, s': State, z: nat)
    requires z < |s.items| && z < |s'.items| && HasFile(h, s.items[z].commit) && Covered(h, s, z)
    requires s'.items[z].commit == s.items[z].commit && s'.items[z].needs == s.items[z].needs
    requires forall line, k :: Awaited(s.out, z, line, k) ==> Awaited(s'.out, z, line, k)
    ensures Covered(h, s', z)
  {
    hide LineMatch;
    forall i | 0 <= i < |s'.items[z].needs|
      ensures LineCovered(h, s'.out, z, s'.items[z].commit, s'.items[z].needs[i])
    {
      assert LineCovered(h, s.out, z, s.items[z].commit, s.items[z].needs[i]);
    }
  }

  /** Updating the answers of one item leaves all items well formed. */
  lemma ItemsAfterAnswers(h: History, s: State, s': State, x: nat)
    requires Shape(s) && ItemsInv(h, s) && Shape(s') && s'.live <= s.live && x < |s.items|
    requires |s'.items| == |s.items| && (forall y :: 0 <= y < |s.items| && y != x ==> s'.items[y] == s.items[y])
    requires SameItem(s.items[x], s'.items[x])
    requires x in s'.live ==> NeedsOk(h, s'.items[x].commit, s'.items[x].needs)
    requires x in s'.live ==> Held(h, s.items[0].commit, s'.items[x].commit, s'.items[x].needs)
    requires forall z :: z in s'.live ==> s'.out[z] == s.out[z]
    ensures ItemsInv(h, s')
  {
    hide NeedsOk, Held, ContOk;
    assert SameItems(s.items, s'.items) by {
      forall y | 0 <= y < |s.items| ensures SameItem(s.items[y], s'.items[y]) {
      }
    }
    forall z | z in s'.live
      ensures ItemOk(h, s'.items, z) && s'.out[z] == Outs(s'.items[z])
    {
      assert ItemOk(h, s.items, z);
      SameItemsOk(h, s.items, s'.items, z);
      SameItemOuts(s.items[z], s'.items[z]);
    }
  }

  // --- An answer arrives ----------------------------------------------------------

  ghost function Answered(s: State, x: nat, child: nat, needs: seq<LineMap>): State
    requires x < |s.out| && child < |s.items| && s.out[x] != []
  {
    State(s.items[child := s.items[child].(needs := needs, pending := s.items[child].pending - 1)],
          s.out[x := s.out[x][1..]], s.live, s.waiting)
  }

  /** Awaited lines stay awaited unless it was the first answer of `x` that was awaited. */
  lemma AwaitedAfterAnswer(out: seq<seq<Out>>, x: nat, z: nat, line: nat, n: nat)
    requires x < |out| && out[x] != [] && Awaited(out, z, line, n)
    requires !(out[x][0].child == z && line in out[x][0].lines && out[x][0].number <= n)
    ensures Awaited(out[x := out[x][1..]], z, line, n)
  {
    var y: nat, k: nat :| Owes(out, y, k, z) && line in out[y][k].lines && out[y][k].number <= n;
    var out' := out[x := out[x][1..]];
    if y == x {
      assert Owes(out', x, k - 1, z) && out'[x][k - 1] == out[x][k];
    } else {
      assert Owes(out', y, k, z) && out'[y] == out[y];
    }
  }

  /** The answer is in for all its lines, unless there was one for an earlier source. */
  ghost predicate Entered(before: seq<LineMap>, after: seq<LineMap>, o: Out) {
    && SameLines(after, before)
    && forall j :: 0 <= j < |after| ==>
         && (after[j].cur in o.lines ==> after[j].commit.Some? && after[j].fromParentNo <= o.number)
         && (before[j].commit.Some? ==> after[j].commit.Some? && after[j].fromParentNo <= before[j].fromParentNo)
  }

  /** The answer covers its lines, so the child is still covered by what is left. */
  lemma CoveredAfterAnswer(h: History, s: State, x: nat, child: nat, needs: seq<LineMap>)
    requires x < |s.out| && child < |s.items| && s.out[x] != [] && s.out[x][0].child == child
    requires HasFile(h, s.items[child].commit) && Covered(h, s, child)
    requires Entered(s.items[child].needs, needs, s.out[x][0])
    ensures Covered(h, Answered(s, x, child, needs), child)
  {
    hide LineMatch, Awaited;
    var s', commit := Answered(s, x, child, needs), s.items[child].commit;
    forall i | 0 <= i < |needs|
      ensures LineCovered(h, s'.out, child, commit, needs[i])
    {
      var l := s.items[child].needs[i];
      assert LineCovered(h, s.out, child, commit, l);
      forall k: nat | k < |Sources(h, commit)| && MatchAt(h, commit, k, l.cur).Some?
                      && !(needs[i].commit.Some? && needs[i].fromParentNo <= k)
        ensures Awaited(s'.out, child, l.cur, k)
      {
        AwaitedAfterAnswer(s.out, x, child, l.cur, k);
      }
    }
  }

  lemma DistinctAfterAnswer(out: seq<seq<Out>>, x: nat)
    requires x < |out| && out[x] != [] && Distinct(out)
    ensures Distinct(out[x := out[x][1..]])
  {
    var out' := out[x := out[x][1..]];
    forall y: nat, k: nat, y': nat, k': nat, c: nat |
      Owes(out', y, k, c) && Owes(out', y', k', c) && out'[y][k].number == out'[y'][k'].number
      ensures y == y' && k == k'
    {
      assert Owes(out, y, if y == x then k + 1 else k, c) && Owes(out, y', if y' == x then k' + 1 else k', c);
    }
  }

  lemma CountAfterAnswer(s: State, x: nat, child: nat, needs: seq<LineMap>)
    requires Shape(s) && CountInv(s) && x < |s.items| && s.out[x] != []
    requires s.out[x][0].child == child && child < |s.items|
    ensures CountInv(Answered(s, x, child, needs))
  {
    hide Distinct;
    var s' := Answered(s, x, child, needs);
    DistinctAfterAnswer(s.out, x);
    forall y: nat, k: nat, c: nat | Owes(s'.out, y, k, c)
      ensures c in s'.live && c !in s'.waiting
    {
      assert Owes(s.out, y, if y == x then k + 1 else k, c);
    }
    forall z | z in s.live && z !in s.waiting
      ensures s'.items[z].pending == Count(s'.out, z)
    {
      CountUpdate(s.out, x, s.out[x][1..], z);
    }
  }

  lemma AnswerStep(h: History, s: State, x: nat, child: nat, needs: seq<LineMap>)
    requires Inv(h, s, {}) && x < |s.items| && x !in s.live
    requires s.out[x] != [] && s.out[x][0].child == child && child < |s.items|
    requires HasFile(h, s.items[child].commit) && NeedsOk(h, s.items[child].commit, needs)
    requires Held(h, s.items[0].commit, s.items[child].commit, needs)
    requires Entered(s.items[child].needs, needs, s.out[x][0])
    ensures child in s.live && child !in s.waiting
    ensures Inv(h, Answered(s, x, child, needs), {child})
    ensures Covered(h, Answered(s, x, child, needs), child)
  {
    var s' := Answered(s, x, child, needs);
    assert Owes(s.out, x, 0, child);
    ItemsAfterAnswers(h, s, s', child);
    CountAfterAnswer(s, x, child, needs);
    CoveredAfterAnswer(h, s, x, child, needs);
    forall z | z in s.live && z !in s.waiting && z != child
      ensures Covered(h, s', z)
    {
      forall line, n | Awaited(s.out, z, line, n) ensures Awaited(s'.out, z, line, n) {
        AwaitedAfterAnswer(s.out, x, z, line, n);
      }
      StillCovered(h, s, s', z);
    }
  }

  // --- An item is finished ----------------------------------------------------------

  ghost function Finished(s: State, x: nat, needs: seq<LineMap>): State
    requires x < |s.items|
  {
    State(s.items[x := s.items[x].(needs := needs)], s.out, s.live - {x}, s.waiting)
  }

  /** With nothing outstanding, no line is awaited any more. */
  lemma NothingAwaited(h: History, s: State, x: nat, i: nat)
    requires Inv(h, s, {x}) && x in s.live && x !in s.waiting && s.items[x].pending == 0 && Covered(h, s, x)
    requires i < |s.items[x].needs|
    ensures forall k: nat :: k < |Sources(h, s.items[x].commit)|
                             && MatchAt(h, s.items[x].commit, k, s.items[x].needs[i].cur).Some? ==>
              s.items[x].needs[i].commit.Some? && s.items[x].needs[i].fromParentNo <= k
  {
    hide LineMatch, ContOk, NeedsOk, Held, BusyInv, WaitInv;
    var l := s.items[x].needs[i];
    assert ItemOk(h, s.items, x);
    assert LineCovered(h, s.out, x, s.items[x].commit, l);
    forall n ensures !Awaited(s.out, x, l.cur, n) {
      forall y: nat, k: nat ensures !Owes(s.out, y, k, x) {
        assert Owes(s.out, y, k, x) ==> Count(s.out, x) > 0 by {
          if Owes(s.out, y, k, x) {
            CountPositive(s.out, y, k, x);
          }
        }
      }
    }
  }

  lemma FinishStep(h: History, s: State, x: nat, needs: seq<LineMap>)
    requires Inv(h, s, {x}) && x in s.live && x !in s.waiting && s.items[x].pending == 0 && x != 0
    requires SameLines(needs, s.items[x].needs)
    ensures Inv(h, Finished(s, x, needs), {})
  {
    var s' := Finished(s, x, needs);
    ItemsAfterAnswers(h, s, s', x);
    forall y: nat, k: nat, c: nat | Owes(s'.out, y, k, c)
      ensures c in s'.live && c !in s'.waiting
    {
      if c == x {
        CountPositive(s.out, y, k, x);
      }
    }
    forall z | z in s'.live && z !in s'.waiting
      ensures Covered(h, s', z)
    {
      StillCovered(h, s, s', z);
    }
  }

  // --- Groups of items ---------------------------------------------------------------

  ghost predicate Separate(cur: seq<nat>, n: nat) {
    && (forall j :: 0 <= j < |cur| ==> cur[j] < n)
    && (forall i, j :: 0 <= i < j < |cur| ==> cur[i] != cur[j])
  }

  /** All of a group but its first member. */
  ghost function Rest(cur: seq<nat>): set<nat>
    requires cur != []
  {
    set j | 1 <= j < |cur| :: cur[j]
  }

  lemma RestNext(cur: seq<nat>, k: nat)
    requires 1 < k <= |cur|
    ensures Rest(cur[..k]) == Rest(cur[..k - 1]) + {cur[k - 1]}
  {
    var a, b := cur[..k - 1], cur[..k];
    forall y | y in Rest(b) ensures y in Rest(a) + {cur[k - 1]} {
      var j :| 1 <= j < |b| && b[j] == y;
      if j < k - 1 {
        assert a[j] == y;
      }
    }
    forall y | y in Rest(a) + {cur[k - 1]} ensures y in Rest(b) {
      if y in Rest(a) {
        var j :| 1 <= j < |a| && a[j] == y;
        assert b[j] == y;
      } else {
        assert b[k - 1] == y;
      }
    }
  }

  lemma NotYetMoved(cur: seq<nat>, k: nat, n: nat)
    requires 1 < k <= |cur| && Separate(cur, n)
    ensures cur[k - 1] !in Rest(cur[..k - 1]) && cur[k - 1] != cur[0]
  {
  }

  // --- Dropping a second item that asks the same --------------------------------------

  /** Item `y` is dropped; `x` now answers for whichever source comes first. */
  ghost function Dropped(s: State, x: nat, y: nat, child: nat): State
    requires x < |s.out| == |s.items| && y < |s.out| && child < |s.items| && s.out[x] != []
  {
    var no := Lower(s.items[x].parentNo, s.items[y].parentNo);
    State(s.items[child := s.items[child].(pending := s.items[child].pending - 1)][x := s.items[x].(parentNo := no)],
          s.out[x := [Out(child, s.out[x][0].lines, no)]][y := []], s.live - {y}, s.waiting - {y})
  }

  function Lower(a: int, b: int): int {
    if b < a then b else a
  }

  /** What an item that hands its child's question on unchanged owes. */
  lemma IdenticalOuts(h: History, s: State, x: nat) returns (child: nat)
    requires Shape(s) && ItemsInv(h, s) && CountInv(s) && x in s.live && s.items[x].identical
    ensures x != 0 && s.items[x].merged == [] && s.items[x].child == Some(child)
    ensures child in s.live && child !in s.waiting && Owes(s.out, x, 0, child)
    ensures s.out[x] == [Out(child, Curs(s.items[child].needs), s.items[x].parentNo)]
    ensures Conts(s.items[x]) == [Cont(child, s.items[x].needs, true, s.items[x].parentNo)]
    ensures ItemOk(h, s.items, x) && ContOk(h, s.items, s.items[x], Conts(s.items[x])[0])
    ensures SameLines(s.items[x].needs, s.items[child].needs)
    ensures CountRow(s.out[x], child) == 1 && (forall c :: c != child ==> CountRow(s.out[x], c) == 0)
  {
    var it := s.items[x];
    assert ItemOk(h, s.items, x);
    child := it.child.value;
    assert ContOk(h, s.items, it, Conts(it)[0]);
    SameLinesKeys(it.needs, s.items[child].needs, true);
    assert s.out[x] == Outs(it) == [Out(child, Curs(s.items[child].needs), it.parentNo)];
    assert Owes(s.out, x, 0, child);
    assert s.out[x][1..] == [];
  }

  lemma DistinctAfterDrop(out: seq<seq<Out>>, x: nat, y: nat, o: Out)
    requires x < |out| && y < |out| && x != y && |out[x]| == 1 && |out[y]| == 1 && Distinct(out)
    requires o.child == out[x][0].child == out[y][0].child
    requires o.number == out[x][0].number || o.number == out[y][0].number
    ensures Distinct(out[x := [o]][y := []])
  {
    var out' := out[x := [o]][y := []];
    assert Owes(out, x, 0, o.child) && Owes(out, y, 0, o.child);
    forall a: nat, k: nat, b: nat, l: nat, c: nat |
      Owes(out', a, k, c) && Owes(out', b, l, c) && out'[a][k].number == out'[b][l].number
      ensures a == b && k == l
    {
      assert Owes(out, a, k, c) && Owes(out, b, l, c);
    }
  }

  lemma {:induction false} DropCount(s: State, x: nat, y: nat, child: nat)
    requires Shape(s) && CountInv(s) && x in s.waiting && y in s.waiting && y != 0 && x != y
    requires child in s.live && child !in s.waiting
    requires |s.out[x]| == 1 && s.out[x][0].child == child && s.out[x][0].number == s.items[x].parentNo
    requires |s.out[y]| == 1 && s.out[y][0].child == child && s.out[y][0].number == s.items[y].parentNo
    ensures CountInv(Dropped(s, x, y, child))
  {
    hide Distinct;
    var s' := Dropped(s, x, y, child);
    var row := s'.out[x];
    DistinctAfterDrop(s.out, x, y, row[0]);
    forall a: nat, k: nat, c: nat | Owes(s'.out, a, k, c)
      ensures c in s'.live && c !in s'.waiting
    {
      assert Owes(s.out, a, k, c);
    }
    forall z: nat ensures CountRow(s.out[x], z) == CountRow(row, z) == CountRow(s.out[y], z) == if z == child then 1 else 0 {
      assert s.out[x][1..] == [] && s.out[y][1..] == [] && row[1..] == [];
    }
    forall z | z in s'.live && z !in s'.waiting
      ensures s'.items[z].pending == Count(s'.out, z)
    {
      CountUpdate(s.out, x, row, z);
      CountUpdate(s.out[x := row], y, [], z);
    }
  }

  /** The item that is kept stands for whichever source comes first. */
  lemma DropOwn(h: History, s: State, x: nat, y: nat, child: nat)
    requires Shape(s) && ItemsInv(h, s) && CountInv(s) && x in s.waiting && y in s.waiting && x != y
    requires s.items[x].identical && s.items[y].identical && s.items[x].child == s.items[y].child == Some(child)
    requires s.items[x].commit == s.items[y].commit && s.out[x] != [] && child < |s.items| && child !in s.waiting
    ensures ItemOk(h, Dropped(s, x, y, child).items, x)
    ensures Dropped(s, x, y, child).out[x] == Outs(Dropped(s, x, y, child).items[x])
  {
    hide Carried, Twin, SameReach, Safe, PrefSame, LineMatch, NeedsOk, Held;
    var s' := Dropped(s, x, y, child);
    var _ := IdenticalOuts(h, s, x);
    var _ := IdenticalOuts(h, s, y);
    var it, other := s'.items[x], s.items[y];
    assert Conts(it) == [Cont(child, it.needs, true, it.parentNo)];
    assert SameLines(it.needs, other.needs);
    assert Stands(h, s.items[0].commit, s.items[child].commit, it.commit, other.needs, true, other.parentNo);
    assert forall i :: 0 <= i < |it.needs| ==> Key(it.needs[i], true) == Key(other.needs[i], true);
    assert ContOk(h, s'.items, it, Conts(it)[0]);
    SameLinesKeys(it.needs, s.items[child].needs, true);
    assert Outs(it) == [Out(child, Keys(it.needs, true), it.parentNo)];
  }

  lemma DropItems(h: History, s: State, x: nat, y: nat, child: nat)
    requires Shape(s) && ItemsInv(h, s) && CountInv(s) && x in s.waiting && y in s.waiting && x != y && y != 0
    requires s.items[x].identical && s.items[y].identical && s.items[x].child == s.items[y].child == Some(child)
    requires s.items[x].commit == s.items[y].commit && s.out[x] != [] && child < |s.items| && child !in s.waiting
    ensures Shape(Dropped(s, x, y, child)) && ItemsInv(h, Dropped(s, x, y, child))
  {
    hide NeedsOk, Held, Outs, Carried, Stands, SameLines;
    var s' := Dropped(s, x, y, child);
    DropOwn(h, s, x, y, child);
    forall z | z in s'.live && z != x
      ensures ItemOk(h, s'.items, z) && s'.out[z] == Outs(s'.items[z])
    {
      assert ItemOk(h, s.items, z);
      forall i | 0 <= i < |Conts(s.items[z])| ensures Conts(s.items[z])[i].child != x {
        ChildSuspended(h, s, z, i);
      }
      ItemOkLocal(h, s.items, s'.items, z);
    }
  }

  lemma DropStep(h: History, s: State, x: nat, y: nat, child: nat)
    requires Inv(h, s, {}) && x in s.waiting && y in s.waiting && x != y && s.items[x].commit == s.items[y].commit
    requires s.items[x].identical && s.items[y].identical && s.items[x].child == s.items[y].child == Some(child)
    ensures child < |s.items| && child !in s.waiting && y != 0 && s.out[x] != []
    ensures s.out[x][0].child == child && Inv(h, Dropped(s, x, y, child), {})
  {
    hide ItemsInv, CountInv, BusyInv;
    var _ := IdenticalOuts(h, s, x);
    var _ := IdenticalOuts(h, s, y);
    DropItems(h, s, x, y, child);
    DropCount(s, x, y, child);
    DropBusy(h, s, x, y, child);
    DropWaits(h, s, x, y, child);
  }

  lemma DropWaits(h: History, s: State, x: nat, y: nat, child: nat)
    requires Shape(s) && ItemsInv(h, s) && WaitInv(h, s) && x in s.waiting && y < |s.items|
    requires child < |s.items| && child !in s.waiting && s.out[x] != []
    requires Shape(Dropped(s, x, y, child)) && ItemsInv(h, Dropped(s, x, y, child))
    ensures WaitInv(h, Dropped(s, x, y, child))
  {
    hide NeedsOk, Held, ContOk, Outs;
    var s' := Dropped(s, x, y, child);
    forall z | z in s'.waiting
      ensures s'.items[z].pending == 0 && Unresolved(s'.items[z].needs)
      ensures s'.items[z].contents == Lines(h, s'.items[z].commit)
    {
      assert s'.items[z] == s.items[z].(parentNo := s'.items[z].parentNo);
    }
  }

  lemma DropBusy(h: History, s: State, x: nat, y: nat, child: nat)
    requires Shape(s) && ItemsInv(h, s) && BusyInv(h, s, {}) && x in s.waiting && y in s.waiting && x != y
    requires child < |s.items| && child !in s.waiting && |s.out[x]| == 1 && |s.out[y]| == 1
    requires s.out[x][0].child == s.out[y][0].child == child && s.out[x][0].lines == s.out[y][0].lines
    requires s.out[x][0].number == s.items[x].parentNo && s.out[y][0].number == s.items[y].parentNo
    requires Shape(Dropped(s, x, y, child)) && ItemsInv(h, Dropped(s, x, y, child)) && CountInv(Dropped(s, x, y, child))
    ensures BusyInv(h, Dropped(s, x, y, child), {})
  {
    hide NeedsOk, Held, ContOk, Distinct;
    var s' := Dropped(s, x, y, child);
    CountPositive(s'.out, x, 0, child);
    forall z | z in s'.live && z !in s'.waiting
      ensures s'.items[z].pending > 0 && Covered(h, s', z)
    {
      assert ItemOk(h, s.items, z);
      forall line, n | Awaited(s.out, z, line, n) ensures Awaited(s'.out, z, line, n) {
        var a: nat, k: nat :| Owes(s.out, a, k, z) && line in s.out[a][k].lines && s.out[a][k].number <= n;
        var b := if a == y then x else a;
        assert Owes(s'.out, b, k, z) && line in s'.out[b][k].lines && s'.out[b][k].number <= n;
      }
      StillCovered(h, s, s', z);
    }
  }

  ghost predicate AskTheSame(s: State, cur: seq<nat>, child: nat) {
    && |s.out| == |s.items| && cur != [] && Separate(cur, |s.out|) && child < |s.items| && child !in s.waiting
    && (forall j :: 0 <= j < |cur| ==>
          cur[j] in s.waiting && s.items[cur[j]].identical && s.items[cur[j]].child == Some(child))
    && (forall j :: 0 <= j < |cur| ==> s.items[cur[j]].commit == s.items[cur[0]].commit)
  }

  /** The lowest parent number of the first `k` items of a group. */
  ghost function LowestNo(items: seq<Item>, cur: seq<nat>, k: nat): int
    requires 1 <= k <= |cur| && forall j :: 0 <= j < |cur| ==> cur[j] < |items|
  {
    if k == 1 then items[cur[0]].parentNo
    else Lower(LowestNo(items, cur, k - 1), items[cur[k - 1]].parentNo)
  }

  lemma {:induction false} LowestIs(items: seq<Item>, cur: seq<nat>, k: nat) returns (l: nat)
    requires 1 <= k <= |cur| && forall j :: 0 <= j < |cur| ==> cur[j] < |items|
    ensures l < k && LowestNo(items, cur, k) == items[cur[l]].parentNo
    ensures forall j :: 0 <= j < k ==> LowestNo(items, cur, k) <= items[cur[j]].parentNo
  {
    l := 0;
    if k > 1 {
      l := LowestIs(items, cur, k - 1);
      if items[cur[k - 1]].parentNo < items[cur[l]].parentNo {
        l := k - 1;
      }
    }
  }

  /** `t` is `s` without the items `cur[1..k]`. */
  ghost predicate WithoutRest(s: State, t: State, cur: seq<nat>, child: nat, k: nat)
    requires 1 <= k <= |cur| && child < |s.items| && forall j :: 0 <= j < |cur| ==> cur[j] < |s.items|
  {
    && t.items == s.items[child := s.items[child].(pending := s.items[child].pending - (k - 1))]
                         [cur[0] := s.items[cur[0]].(parentNo := LowestNo(s.items, cur, k))]
    && t.live == s.live - Rest(cur[..k]) && t.waiting == s.waiting - Rest(cur[..k])
    && |t.out| == |s.out|
    && forall y :: 0 <= y < |s.out| && y != cur[0] ==> t.out[y] == if y in Rest(cur[..k]) then [] else s.out[y]
  }

  lemma {:induction false} WithoutOneMore(s: State, t: State, cur: seq<nat>, child: nat, k: nat)
    requires 1 <= k < |cur| && AskTheSame(s, cur, child) && WithoutRest(s, t, cur, child, k)
    ensures cur[0] in t.waiting && cur[k] in t.waiting && cur[0] != cur[k] && cur[k] < |t.out| == |t.items|
    ensures t.items[cur[0]] == s.items[cur[0]].(parentNo := LowestNo(s.items, cur, k)) && t.items[cur[k]] == s.items[cur[k]]
    ensures cur[k] !in Rest(cur[..k]) && cur[0] !in Rest(cur[..k]) && child != cur[0] && child != cur[k]
  {
    NotYetMoved(cur, k + 1, |s.out|);
    assert cur[..k + 1][..k] == cur[..k];
    assert cur[0] !in Rest(cur[..k]);
  }

  lemma WithoutNext(s: State, t: State, cur: seq<nat>, child: nat, k: nat)
    requires 1 <= k < |cur| && |s.out| == |s.items| && Separate(cur, |s.out|) && child < |s.items|
    requires WithoutRest(s, t, cur, child, k) && t.out[cur[0]] != []
    requires t.items[cur[k]] == s.items[cur[k]] && child != cur[0] && child != cur[k]
    ensures WithoutRest(s, Dropped(t, cur[0], cur[k], child), cur, child, k + 1)
  {
    hide Rest;
    RestNext(cur, k + 1);
    assert cur[..k + 1][..k] == cur[..k];
    assert LowestNo(s.items, cur, k + 1) == Lower(LowestNo(s.items, cur, k), s.items[cur[k]].parentNo);
    var u := Dropped(t, cur[0], cur[k], child);
    assert u.items == s.items[child := s.items[child].(pending := s.items[child].pending - k)]
                             [cur[0] := s.items[cur[0]].(parentNo := LowestNo(s.items, cur, k + 1))];
  }

  /** Of items that ask the same, one is enough. */
  lemma DropMany(h: History, s: State, cur: seq<nat>, child: nat) returns (t: State)
    requires Inv(h, s, {}) && AskTheSame(s, cur, child)
    ensures Inv(h, t, {}) && WithoutRest(s, t, cur, child, |cur|)
  {
    t := s;
    assert Rest(cur[..1]) == {};
    assert s.items == s.items[child := s.items[child].(pending := s.items[child].pending - 0)]
                             [cur[0] := s.items[cur[0]].(parentNo := s.items[cur[0]].parentNo)];
    hide Inv, Separate;
    for k := 1 to |cur|
      invariant Inv(h, t, {}) && WithoutRest(s, t, cur, child, k)
    {
      WithoutOneMore(s, t, cur, child, k);
      DropStep(h, t, cur[0], cur[k], child);
      WithoutNext(s, t, cur, child, k);
      t := Dropped(t, cur[0], cur[k], child);
    }
  }

  lemma TwoStandMeet(h: History, start: Hash, child: Hash, commit: Hash, a: seq<LineMap>, m: int, b: seq<LineMap>, n: int)
    requires Stands(h, start, child, commit, a, true, m) && Stands(h, start, child, commit, b, true, n) && m < n
    ensures 0 <= m && Collapsible(h, child, m)
  {
    hide SameReach, Safe, PrefSame, LineMatch;
    assert Meet(h, child, m, n);
  }

  /** Items that ask the same of one commit came to it from different sources. */
  lemma {:induction false} GroupCollapses(h: History, s: State, cur: seq<nat>, child: nat)
    requires Inv(h, s, {}) && AskTheSame(s, cur, child) && |cur| > 1
    ensures LowestNo(s.items, cur, |cur|) >= 0
    ensures Collapsible(h, s.items[child].commit, LowestNo(s.items, cur, |cur|))
  {
    hide ItemsInv, BusyInv, WaitInv, Carried, Stands, NeedsOk, Held, Collapsible, Rank, Reaches;
    var l := LowestIs(s.items, cur, |cur|);
    var j := if l == 0 then 1 else 0;
    var a, b := cur[l], cur[j];
    var _ := IdenticalOuts(h, s, a);
    var _ := IdenticalOuts(h, s, b);
    assert s.items[a].parentNo != s.items[b].parentNo;
    TwoStandMeet(h, s.items[0].commit, s.items[child].commit, s.items[a].commit,
                 s.items[a].needs, s.items[a].parentNo, s.items[b].needs, s.items[b].parentNo);
  }

  // --- Passing over a child that only relays --------------------------------------------

  ghost function Relayed(s: State, x: nat, child: nat): State
    requires x < |s.out| == |s.items| && child < |s.out|
  {
    State(s.items[x := s.items[x].(child := s.items[child].child, parentNo := s.items[child].parentNo)],
          s.out[x := s.out[child]][child := []], s.live - {child}, s.waiting)
  }

  /** An item stays well formed when neither it, nor what it says about its children, changes. */
  lemma ItemOkLocal(h: History, a: seq<Item>, b: seq<Item>, z: nat)
    requires z < |a| <= |b| && ItemOk(h, a, z) && b[z] == a[z].(pending := b[z].pending) && b[0].commit == a[0].commit
    requires forall i :: 0 <= i < |Conts(a[z])| ==>
               b[Conts(a[z])[i].child].commit == a[Conts(a[z])[i].child].commit
               && b[Conts(a[z])[i].child].needs == a[Conts(a[z])[i].child].needs
    ensures ItemOk(h, b, z) && Outs(b[z]) == Outs(a[z])
  {
    assert Conts(b[z]) == Conts(a[z]);
    forall i | 0 <= i < |Conts(b[z])| ensures ContOk(h, b, b[z], Conts(b[z])[i]) {
      assert ContOk(h, a, a[z], Conts(a[z])[i]);
    }
  }

  /** The children of a live item are suspended. */
  lemma ChildSuspended(h: History, s: State, z: nat, i: nat)
    requires Shape(s) && ItemsInv(h, s) && CountInv(s) && z in s.live && i < |Conts(s.items[z])|
    ensures var c := Conts(s.items[z])[i].child; c in s.live && c !in s.waiting && Owes(s.out, z, i, c)
  {
    assert s.out[z] == Outs(s.items[z]);
    assert Owes(s.out, z, i, Conts(s.items[z])[i].child);
  }

  lemma SafeMeans(h: History, start: Hash, c: Hash, n: nat)
    requires Reaches(Parents(h), start, c) && Collapsible(h, c, n)
    ensures Safe(h, start) ==> PrefSame(h, c, Sources(h, c)[n])
  {
  }

  /** A source that everything hangs on may be passed over. */
  lemma RelayStands(h: History, start: Hash, far: Hash, m: int, mid: Hash, midNeeds: seq<LineMap>, n: int, commit: Hash,
                    needs: seq<LineMap>)
    requires Acyclic(Parents(h)) && Reaches(Parents(h), start, mid) && SameLines(needs, midNeeds)
    requires Stands(h, start, far, mid, midNeeds, true, m) && Stands(h, start, mid, commit, needs, true, n)
    requires Collapsible(h, mid, n)
    ensures 0 <= m && Stands(h, start, far, commit, needs, true, m) && Collapsible(h, far, m)
  {
    hide LineMatch, SameReach, Collapsible, Safe, Preferred;
    var p, q := Sources(h, far)[m], Sources(h, mid)[n];
    SameReachLines(h, p, mid);
    SameReachStep(h, mid, q);
    SameReachTrans(h, p, mid, q);
    SameReachTrans(h, p, q, commit);
    CollapsibleAbove(h, far, m, mid, n);
    assert Safe(h, start) ==> PrefSame(h, mid, q) by { SafeMeans(h, start, mid, n); }
    assert forall i :: 0 <= i < |needs| ==> Key(needs[i], true) == Key(midNeeds[i], true);
  }

  /** Lines that stay the same all the way are carried over all the way. */
  lemma RelayContOk(h: History, items: seq<Item>, x: nat, child: nat)
    requires Acyclic(Parents(h)) && x < |items| && child < |items| && ItemOk(h, items, x) && ItemOk(h, items, child)
    requires items[x].identical && items[x].child == Some(child) && items[child].identical
    requires items[x].parentNo >= 0 && Collapsible(h, items[child].commit, items[x].parentNo)
    ensures items[child].child.Some? && items[child].child.value < |items| && items[child].parentNo >= 0
    ensures ContOk(h, items, items[x], Cont(items[child].child.value, items[x].needs, true, items[child].parentNo))
    ensures Collapsible(h, items[items[child].child.value].commit, items[child].parentNo)
  {
    hide NeedsOk, Held, Stands, Carried, Collapsible, Reaches, Rank;
    var it, mid := items[x], items[child];
    assert ContOk(h, items, it, Conts(it)[0]) && ContOk(h, items, mid, Conts(mid)[0]);
    var far := mid.child.value;
    RelayStands(h, items[0].commit, items[far].commit, mid.parentNo, mid.commit, mid.needs, it.parentNo, it.commit, it.needs);
    forall i | 0 <= i < |it.needs|
      ensures Carried(h, Place(items[far].commit, it.needs[i].cur), Place(it.commit, it.needs[i].cur))
    {
      var line := it.needs[i].cur;
      assert mid.needs[i].cur == line;
      assert Carried(h, Place(items[far].commit, Key(mid.needs[i], true)), Place(mid.commit, mid.needs[i].cur));
      assert Carried(h, Place(mid.commit, Key(it.needs[i], true)), Place(it.commit, it.needs[i].cur));
      CarriedTrans(h, Place(items[far].commit, line), Place(mid.commit, line), Place(it.commit, line));
    }
  }

  /** Item `x` can answer to where its child would only pass the answer on. */
  ghost predicate CanRelay(h: History, s: State, x: nat, child: nat) {
    && Acyclic(Parents(h)) && Shape(s) && ItemsInv(h, s) && CountInv(s) && x in s.waiting && s.items[x].identical
    && s.items[x].child == Some(child) && child in s.live && s.items[child].identical
    && s.items[x].parentNo >= 0 && Collapsible(h, s.items[child].commit, s.items[x].parentNo)
  }

  /** The item that now answers further up is well formed and owes the same lines. */
  lemma RelayOwn(h: History, s: State, x: nat, child: nat)
    requires CanRelay(h, s, x, child) && child != x
    ensures ItemOk(h, Relayed(s, x, child).items, x)
    ensures s.out[child] == Outs(Relayed(s, x, child).items[x])
  {
    hide NeedsOk, Held, Stands, Carried, Collapsible, Reaches, Rank;
    var s' := Relayed(s, x, child);
    var _ := IdenticalOuts(h, s, x);
    var far := IdenticalOuts(h, s, child);
    RelayContOk(h, s.items, x, child);
    var it := s'.items[x];
    assert Conts(it) == [Cont(far, it.needs, true, it.parentNo)];
    assert far != x;
    assert ContOk(h, s'.items, it, Conts(it)[0]);
    SameLinesKeys(s.items[child].needs, s.items[x].needs, true);
    SameLinesKeys(s.items[child].needs, s.items[far].needs, true);
    assert Outs(it) == [Out(far, Curs(it.needs), it.parentNo)];
  }

  lemma RelayItems(h: History, s: State, x: nat, child: nat)
    requires CanRelay(h, s, x, child)
    ensures child != 0 && x != child && Shape(Relayed(s, x, child)) && ItemsInv(h, Relayed(s, x, child))
  {
    hide NeedsOk, Held, Outs, Carried, Stands, SameLines, Collapsible;
    var s' := Relayed(s, x, child);
    var _ := IdenticalOuts(h, s, x);
    var _ := IdenticalOuts(h, s, child);
    RelayOwn(h, s, x, child);
    forall z | z in s'.live && z != x
      ensures ItemOk(h, s'.items, z) && s'.out[z] == Outs(s'.items[z])
    {
      assert ItemOk(h, s.items, z);
      forall i | 0 <= i < |Conts(s.items[z])| ensures Conts(s.items[z])[i].child != x {
        ChildSuspended(h, s, z, i);
      }
      ItemOkLocal(h, s.items, s'.items, z);
    }
  }

  lemma DistinctAfterRelay(out: seq<seq<Out>>, x: nat, child: nat)
    requires x < |out| && child < |out| && x != child && Distinct(out)
    ensures Distinct(out[x := out[child]][child := []])
  {
    var out' := out[x := out[child]][child := []];
    forall y: nat, k: nat, y': nat, k': nat, c: nat |
      Owes(out', y, k, c) && Owes(out', y', k', c) && out'[y][k].number == out'[y'][k'].number
      ensures y == y' && k == k'
    {
      assert Owes(out, if y == x then child else y, k, c) && Owes(out, if y' == x then child else y', k', c);
    }
  }

  lemma RelayCount(h: History, s: State, x: nat, child: nat)
    requires CanRelay(h, s, x, child) && s.items[child].pending == 1
    ensures child != 0 && Shape(Relayed(s, x, child)) && CountInv(Relayed(s, x, child))
  {
    hide Distinct, ItemOk, ContOk, Collapsible;
    var s' := Relayed(s, x, child);
    var c := IdenticalOuts(h, s, x);
    var far := IdenticalOuts(h, s, child);
    DistinctAfterRelay(s.out, x, child);
    var mid := s.out[x := s.out[child]];
    forall z: nat ensures Count(s'.out, z) == if z == child then 0 else Count(s.out, z) {
      CountUpdate(s.out, x, s.out[child], z);
      CountUpdate(mid, child, [], z);
    }
    forall a: nat, k: nat, e: nat | Owes(s'.out, a, k, e)
      ensures e in s'.live && e !in s'.waiting
    {
      assert Owes(s.out, if a == x then child else a, k, e);
      if e == child {
        CountPositive(s'.out, a, k, child);
      }
    }
  }

  lemma RelayBusy(h: History, s: State, x: nat, child: nat)
    requires Shape(s) && ItemsInv(h, s) && BusyInv(h, s, {}) && x in s.waiting && child in s.live && x != child
    requires Shape(Relayed(s, x, child)) && ItemsInv(h, Relayed(s, x, child))
    requires |s.out[x]| == 1 && s.out[x][0].child == child
    ensures BusyInv(h, Relayed(s, x, child), {})
  {
    hide NeedsOk, Held, ContOk;
    var s' := Relayed(s, x, child);
    forall z | z in s'.live && z !in s'.waiting
      ensures s'.items[z].pending > 0 && Covered(h, s', z)
    {
      assert ItemOk(h, s.items, z);
      forall line, n | Awaited(s.out, z, line, n) ensures Awaited(s'.out, z, line, n) {
        var a: nat, k: nat :| Owes(s.out, a, k, z) && line in s.out[a][k].lines && s.out[a][k].number <= n;
        var b := if a == child then x else a;
        assert Owes(s'.out, b, k, z) && line in s'.out[b][k].lines && s'.out[b][k].number <= n;
      }
      StillCovered(h, s, s', z);
    }
  }

  lemma RelayStep(h: History, s: State, x: nat, child: nat)
    requires Inv(h, s, {}) && x in s.waiting && s.items[x].identical && s.items[x].child == Some(child)
    requires child in s.live && s.items[child].identical && s.items[child].pending == 1
    requires s.items[x].parentNo >= 0 && Collapsible(h, s.items[child].commit, s.items[x].parentNo)
    ensures child != 0 && x != child && s.items[x].merged == [] && Inv(h, Relayed(s, x, child), {})
    ensures s.items[child].child.Some? && s.items[child].parentNo >= 0
    ensures var far := s.items[child].child.value;
            && far in s.live && far !in s.waiting && far != child && far < |s.items|
            && Collapsible(h, s.items[far].commit, s.items[child].parentNo)
  {
    hide CountInv, BusyInv, Collapsible, NeedsOk, Held, Stands, Carried;
    RelayItems(h, s, x, child);
    RelayCount(h, s, x, child);
    var _ := IdenticalOuts(h, s, x);
    var _ := IdenticalOuts(h, s, child);
    RelayBusy(h, s, x, child);
    RelayContOk(h, s.items, x, child);
  }

  // --- Expanding an item ------------------------------------------------------------------

  ghost function Opened(s: State, x: nat): State {
    s.(waiting := s.waiting - {x})
  }

  lemma OpenStep(h: History, s: State, x: nat)
    requires Inv(h, s, {}) && x in s.waiting
    ensures Inv(h, Opened(s, x), {x}) && AskedBelow(s.out, x, 0)
  {
    hide NeedsOk, Held, ContOk, Distinct;
    var s' := Opened(s, x);
    assert forall y: nat, k: nat :: !Owes(s.out, y, k, x);
    if Count(s.out, x) > 0 {
      var y, k := CountWitness(s.out, x);
    }
    forall z | z in s'.live && z !in s'.waiting && z != x
      ensures Covered(h, s', z)
    {
      StillCovered(h, s, s', z);
    }
  }

  ghost function Pushed(s: State, x: nat, it: Item): State
    requires x < |s.items|
  {
    State(s.items[x := s.items[x].(pending := s.items[x].pending + 1)] + [it],
          s.out + [Outs(it)], s.live + {|s.items|}, s.waiting + {|s.items|})
  }

  /** A fresh question: nothing answered yet, and one child to answer to. */
  ghost predicate Fresh(h: History, s: State, it: Item) {
    && |s.items| > 0 && HasFile(h, it.commit) && it.merged == [] && it.child.Some? && it.pending == 0
    && NeedsOk(h, it.commit, it.needs) && Unresolved(it.needs) && it.contents == Lines(h, it.commit)
    && Rank(Parents(h), it.commit) < Rank(Parents(h), s.items[0].commit)
    && Reaches(Parents(h), s.items[0].commit, it.commit)
    && ContOk(h, s.items, it, Conts(it)[0])
  }

  lemma FreshItemOk(h: History, s: State, items: seq<Item>, it: Item)
    requires Fresh(h, s, it) && |items| == |s.items| + 1 && items[|s.items|] == it
    requires items[0].commit == s.items[0].commit
    requires items[it.child.value].commit == s.items[it.child.value].commit
    requires items[it.child.value].needs == s.items[it.child.value].needs
    ensures ItemOk(h, items, |s.items|)
  {
    hide NeedsOk, Carried, Stands, SameLines;
    assert Conts(it) == [Conts(it)[0]];
    assert ContOk(h, items, it, Conts(it)[0]);
  }

  lemma PushItems(h: History, s: State, x: nat, it: Item)
    requires Shape(s) && ItemsInv(h, s) && x in s.live && Fresh(h, s, it)
    ensures Shape(Pushed(s, x, it)) && ItemsInv(h, Pushed(s, x, it))
  {
    hide NeedsOk, Held, Outs, Carried, Stands, SameLines;
    var s' := Pushed(s, x, it);
    FreshItemOk(h, s, s'.items, it);
    forall z | z in s.live
      ensures ItemOk(h, s'.items, z) && s'.out[z] == Outs(s'.items[z])
    {
      assert ItemOk(h, s.items, z);
      ItemOkLocal(h, s.items, s'.items, z);
    }
  }

  lemma AwaitedAfterPush(out: seq<seq<Out>>, row: seq<Out>, z: nat, line: nat, n: nat)
    requires Awaited(out, z, line, n)
    ensures Awaited(out + [row], z, line, n)
  {
    var y: nat, k: nat :| Owes(out, y, k, z) && line in out[y][k].lines && out[y][k].number <= n;
    assert Owes(out + [row], y, k, z) && (out + [row])[y] == out[y];
  }

  /** All that is owed to `x` is for sources below number `n`. */
  ghost predicate AskedBelow(out: seq<seq<Out>>, x: nat, n: int) {
    forall y: nat, k: nat :: Owes(out, y, k, x) ==> out[y][k].number < n
  }

  lemma DistinctAfterPush(out: seq<seq<Out>>, o: Out)
    requires Distinct(out) && AskedBelow(out, o.child, o.number)
    ensures Distinct(out + [[o]]) && AskedBelow(out + [[o]], o.child, o.number + 1)
  {
    var out' := out + [[o]];
    forall y: nat, k: nat, c: nat | Owes(out', y, k, c)
      ensures (y == |out| && k == 0 && c == o.child) || (Owes(out, y, k, c) && out'[y] == out[y])
    {
    }
  }

  lemma PushCount(s: State, x: nat, it: Item)
    requires Shape(s) && CountInv(s) && x in s.live && x !in s.waiting && Shape(Pushed(s, x, it))
    requires it.merged == [] && it.child == Some(x) && AskedBelow(s.out, x, it.parentNo)
    ensures CountInv(Pushed(s, x, it)) && Owes(Pushed(s, x, it).out, |s.items|, 0, x)
    ensures Pushed(s, x, it).out[|s.items|][0] == Out(x, Keys(it.needs, it.identical), it.parentNo)
    ensures AskedBelow(Pushed(s, x, it).out, x, it.parentNo + 1)
  {
    hide Distinct, AskedBelow;
    var s', n := Pushed(s, x, it), |s.items|;
    var o := Out(x, Keys(it.needs, it.identical), it.parentNo);
    assert Outs(it) == [o];
    DistinctAfterPush(s.out, o);
    forall y: nat, k: nat, c: nat | Owes(s'.out, y, k, c)
      ensures c in s'.live && c !in s'.waiting
    {
      if y < n {
        assert Owes(s.out, y, k, c);
      }
    }
    assert Outs(it)[1..] == [];
    forall z | z in s'.live && z !in s'.waiting ensures s'.items[z].pending == Count(s'.out, z) {
      CountPush(s.out, Outs(it), z);
    }
  }

  lemma PushStep(h: History, s: State, x: nat, it: Item)
    requires Inv(h, s, {x}) && x in s.live && x !in s.waiting && Fresh(h, s, it) && it.child == Some(x)
    requires AskedBelow(s.out, x, it.parentNo)
    ensures Inv(h, Pushed(s, x, it), {x}) && AskedBelow(Pushed(s, x, it).out, x, it.parentNo + 1)
    ensures forall line, n :: line in Keys(it.needs, it.identical) && it.parentNo <= n ==>
              Awaited(Pushed(s, x, it).out, x, line, n)
    ensures forall line, n :: Awaited(s.out, x, line, n) ==> Awaited(Pushed(s, x, it).out, x, line, n)
  {
    hide ItemOk, Covered, CountInv, BusyInv, AskedBelow, ContOk, NeedsOk, Outs, Reaches, Rank;
    PushItems(h, s, x, it);
    PushCount(s, x, it);
    PushBusy(h, s, x, it);
  }

  lemma PushBusy(h: History, s: State, x: nat, it: Item)
    requires Shape(s) && ItemsInv(h, s) && BusyInv(h, s, {x}) && x in s.live && x !in s.waiting
    requires Shape(Pushed(s, x, it)) && ItemsInv(h, Pushed(s, x, it))
    ensures BusyInv(h, Pushed(s, x, it), {x})
    ensures forall line, n :: Awaited(s.out, x, line, n) ==> Awaited(Pushed(s, x, it).out, x, line, n)
  {
    hide NeedsOk, Held, ContOk;
    var s' := Pushed(s, x, it);
    forall z: nat, line, n | Awaited(s.out, z, line, n) ensures Awaited(s'.out, z, line, n) {
      AwaitedAfterPush(s.out, Outs(it), z, line, n);
    }
    forall z | z in s'.live && z !in s'.waiting && z != x
      ensures s'.items[z].pending > 0 && Covered(h, s', z)
    {
      assert ItemOk(h, s.items, z);
      StillCovered(h, s, s', z);
    }
  }

  ghost function PassedOn(s: State, x: nat, it: Item): State
    requires x < |s.out|
  {
    State(s.items + [it], s.out[x := []] + [Outs(it)], s.live - {x} + {|s.items|}, s.waiting + {|s.items|})
  }

  lemma PassOnItems(h: History, s: State, x: nat, it: Item)
    requires Shape(s) && ItemsInv(h, s) && x in s.live && x !in s.waiting && x != 0 && Fresh(h, s, it)
    ensures Shape(PassedOn(s, x, it)) && ItemsInv(h, PassedOn(s, x, it))
  {
    hide NeedsOk, Held, Outs, Carried, Stands, SameLines;
    var s' := PassedOn(s, x, it);
    FreshItemOk(h, s, s'.items, it);
    forall z | z in s.live && z != x
      ensures ItemOk(h, s'.items, z) && s'.out[z] == Outs(s'.items[z])
    {
      assert ItemOk(h, s.items, z);
      ItemOkLocal(h, s.items, s'.items, z);
    }
  }

  lemma DistinctAfterPassOn(out: seq<seq<Out>>, x: nat)
    requires x < |out| && Distinct(out)
    ensures Distinct(out[x := []] + [out[x]])
  {
    var out', n := out[x := []] + [out[x]], |out|;
    forall y: nat, k: nat, y': nat, k': nat, c: nat |
      Owes(out', y, k, c) && Owes(out', y', k', c) && out'[y][k].number == out'[y'][k'].number
      ensures y == y' && k == k'
    {
      assert Owes(out, if y == n then x else y, k, c) && Owes(out, if y' == n then x else y', k', c);
    }
  }

  lemma PassOnCount(s: State, x: nat, it: Item)
    requires Shape(s) && CountInv(s) && x in s.live && x !in s.waiting && s.items[x].pending == 0
    requires Shape(PassedOn(s, x, it)) && Outs(it) == s.out[x]
    ensures CountInv(PassedOn(s, x, it))
  {
    hide Distinct;
    var s', n := PassedOn(s, x, it), |s.items|;
    DistinctAfterPassOn(s.out, x);
    forall y: nat, k: nat, c: nat | Owes(s'.out, y, k, c)
      ensures c in s'.live && c !in s'.waiting
    {
      var y' := if y == n then x else y;
      assert Owes(s.out, y', k, c);
      CountPositive(s.out, y', k, c);
    }
    forall z | z in s'.live && z !in s'.waiting ensures s'.items[z].pending == Count(s'.out, z) {
      CountUpdate(s.out, x, [], z);
      CountPush(s.out[x := []], Outs(it), z);
    }
  }

  lemma PassOnBusy(h: History, s: State, x: nat, it: Item)
    requires Shape(s) && ItemsInv(h, s) && BusyInv(h, s, {x}) && x in s.live && x !in s.waiting
    requires Shape(PassedOn(s, x, it)) && ItemsInv(h, PassedOn(s, x, it)) && Outs(it) == s.out[x]
    ensures BusyInv(h, PassedOn(s, x, it), {})
  {
    hide NeedsOk, Held, ContOk;
    var s', last := PassedOn(s, x, it), |s.items|;
    forall z | z in s'.live && z !in s'.waiting
      ensures s'.items[z].pending > 0 && Covered(h, s', z)
    {
      assert ItemOk(h, s.items, z);
      forall line, n | Awaited(s.out, z, line, n) ensures Awaited(s'.out, z, line, n) {
        var y: nat, k: nat :| Owes(s.out, y, k, z) && line in s.out[y][k].lines && s.out[y][k].number <= n;
        var y' := if y == x then last else y;
        assert Owes(s'.out, y', k, z) && s'.out[y'] == s.out[y];
      }
      StillCovered(h, s, s', z);
    }
  }

  /** An item with one parent and the same blob as its child and that parent steps aside. */
  lemma PassOnStep(h: History, s: State, x: nat, it: Item)
    requires Inv(h, s, {x}) && x in s.live && x !in s.waiting && x != 0 && s.items[x].pending == 0
    requires Fresh(h, s, it) && Outs(it) == s.out[x]
    ensures Inv(h, PassedOn(s, x, it), {})
  {
    hide ItemOk, Covered, CountInv, BusyInv, ContOk, NeedsOk, Reaches, Rank;
    PassOnItems(h, s, x, it);
    PassOnCount(s, x, it);
    PassOnBusy(h, s, x, it);
  }

  // --- Merging the items of one commit ----------------------------------------------------

  /** Different waiting items about the same commit, each with one child. */
  ghost predicate Mergeable(s: State, cur: seq<nat>) {
    && |cur| > 1
    && (forall j :: 0 <= j < |cur| ==> cur[j] in s.waiting && cur[j] < |s.items|)
    && (forall i, j :: 0 <= i < j < |cur| ==> cur[i] != cur[j])
    && (forall j :: 0 <= j < |cur| ==> s.items[cur[j]].commit == s.items[cur[0]].commit)
    && (forall j :: 0 <= j < |cur| ==> s.items[cur[j]].merged == [] && s.items[cur[j]].child.Some?)
  }

  ghost function MergedConts(items: seq<Item>, cur: seq<nat>): seq<Cont>
    requires forall j :: 0 <= j < |cur| ==> cur[j] < |items| && Conts(items[cur[j]]) != []
  {
    seq(|cur|, j requires 0 <= j < |cur| => Conts(items[cur[j]])[0])
  }

  /** All that the items in `cur` owe, now owed by the first of them. */
  ghost function GatherOut(out: seq<seq<Out>>, cur: seq<nat>): seq<seq<Out>>
    requires cur != [] && forall j :: 0 <= j < |cur| ==> cur[j] < |out| && |out[cur[j]]| == 1
  {
    seq(|out|, y requires 0 <= y < |out| =>
      if y == cur[0] then seq(|cur|, j requires 0 <= j < |cur| => out[cur[j]][0])
      else if y in Rest(cur) then [] else out[y])
  }

  ghost function Gathered(s: State, cur: seq<nat>, needs: seq<LineMap>): State
    requires Shape(s) && Mergeable(s, cur)
    requires forall j :: 0 <= j < |cur| ==> |s.out[cur[j]]| == 1
  {
    var it := s.items[cur[0]];
    State(s.items[cur[0] := it.(merged := MergedConts(s.items, cur), needs := needs, identical := false, child := None)],
          GatherOut(s.out, cur), s.live - Rest(cur), s.waiting - Rest(cur))
  }

  lemma RestExcludesFirst(s: State, cur: seq<nat>)
    requires Mergeable(s, cur)
    ensures cur[0] !in Rest(cur)
  {
  }

  lemma MergeableRows(h: History, s: State, cur: seq<nat>)
    requires Shape(s) && ItemsInv(h, s) && Mergeable(s, cur)
    ensures forall j :: 0 <= j < |cur| ==> s.out[cur[j]] == [OutOf(Conts(s.items[cur[j]])[0])]
    ensures forall j :: 0 <= j < |cur| ==> cur[j] != 0
  {
    forall j | 0 <= j < |cur|
      ensures s.out[cur[j]] == [OutOf(Conts(s.items[cur[j]])[0])] && cur[j] != 0
    {
      assert ItemOk(h, s.items, cur[j]);
      assert s.out[cur[j]] == Outs(s.items[cur[j]]);
    }
  }

  /** Only the rows of `cur[1..k]` moved so far. */
  ghost function GatherSome(out: seq<seq<Out>>, cur: seq<nat>, k: nat): seq<seq<Out>>
    requires 1 <= k <= |cur| && Separate(cur, |out|) && forall j :: 0 <= j < |cur| ==> |out[cur[j]]| == 1
  {
    seq(|out|, y requires 0 <= y < |out| =>
      if y == cur[0] then seq(k, j requires 0 <= j < k => out[cur[j]][0])
      else if y in Rest(cur[..k]) then [] else out[y])
  }

  /** Moving one more row. */
  lemma GatherNext(out: seq<seq<Out>>, cur: seq<nat>, k: nat)
    requires 1 < k <= |cur| && Separate(cur, |out|) && forall j :: 0 <= j < |cur| ==> |out[cur[j]]| == 1
    ensures var before := GatherSome(out, cur, k - 1);
            && before[cur[k - 1]] == out[cur[k - 1]]
            && GatherSome(out, cur, k) ==
                 before[cur[0] := before[cur[0]] + out[cur[k - 1]]][cur[k - 1] := []]
  {
    var before, after := GatherSome(out, cur, k - 1), GatherSome(out, cur, k);
    RestNext(cur, k);
    NotYetMoved(cur, k, |out|);
    assert out[cur[k - 1]] == [out[cur[k - 1]][0]];
    assert after[cur[0]] == before[cur[0]] + out[cur[k - 1]];
    assert after[cur[k - 1]] == [];
    forall y | 0 <= y < |out| && y != cur[0] && y != cur[k - 1] ensures after[y] == before[y] {
    }
  }

  lemma GatherOne(out: seq<seq<Out>>, cur: seq<nat>)
    requires cur != [] && Separate(cur, |out|) && forall j :: 0 <= j < |cur| ==> |out[cur[j]]| == 1
    ensures GatherSome(out, cur, 1) == out
  {
    assert Rest(cur[..1]) == {};
    assert out[cur[0]] == [out[cur[0]][0]];
    forall y | 0 <= y < |out| ensures GatherSome(out, cur, 1)[y] == out[y] {
    }
  }

  lemma {:induction false} GatherSomeCount(out: seq<seq<Out>>, cur: seq<nat>, k: nat, c: nat)
    requires Separate(cur, |out|) && 1 <= k <= |cur| && forall j :: 0 <= j < |cur| ==> |out[cur[j]]| == 1
    ensures Count(GatherSome(out, cur, k), c) == Count(out, c)
  {
    hide Count, Rest;
    if k == 1 {
      GatherOne(out, cur);
    } else {
      var before := GatherSome(out, cur, k - 1);
      GatherSomeCount(out, cur, k - 1, c);
      GatherNext(out, cur, k);
      NotYetMoved(cur, k, |out|);
      var y, row := cur[k - 1], out[cur[k - 1]];
      var mid := before[cur[0] := before[cur[0]] + row];
      CountUpdate(before, cur[0], before[cur[0]] + row, c);
      CountRowConcat(before[cur[0]], row, c);
      CountUpdate(mid, y, [], c);
    }
  }

  /** Moving all rows to the first item loses no answer. */
  lemma {:induction false} GatherCount(out: seq<seq<Out>>, cur: seq<nat>, c: nat)
    requires cur != [] && Separate(cur, |out|) && forall j :: 0 <= j < |cur| ==> |out[cur[j]]| == 1
    ensures Count(GatherOut(out, cur), c) == Count(out, c)
  {
    GatherSomeCount(out, cur, |cur|, c);
    assert cur[..|cur|] == cur;
    assert GatherSome(out, cur, |cur|) == GatherOut(out, cur);
  }

  lemma AwaitedAfterGather(out: seq<seq<Out>>, cur: seq<nat>, z: nat, line: nat, n: nat)
    requires cur != [] && Separate(cur, |out|) && forall j :: 0 <= j < |cur| ==> |out[cur[j]]| == 1
    requires Awaited(out, z, line, n)
    ensures Awaited(GatherOut(out, cur), z, line, n)
  {
    var y: nat, k: nat :| Owes(out, y, k, z) && line in out[y][k].lines && out[y][k].number <= n;
    var g := GatherOut(out, cur);
    if y in cur {
      var j :| 0 <= j < |cur| && cur[j] == y;
      assert Owes(g, cur[0], j, z) && g[cur[0]][j] == out[y][0];
    } else {
      assert y !in Rest(cur) && y != cur[0];
      assert g[y] == out[y] && Owes(g, y, k, z);
    }
  }

  /** Where the first item's answer was owed before. */
  lemma OwesAfterGather(out: seq<seq<Out>>, cur: seq<nat>, y: nat, k: nat, c: nat) returns (y': nat, k': nat)
    requires cur != [] && Separate(cur, |out|) && forall j :: 0 <= j < |cur| ==> |out[cur[j]]| == 1
    requires Owes(GatherOut(out, cur), y, k, c)
    ensures Owes(out, y', k', c) && out[y'][k'] == GatherOut(out, cur)[y][k]
    ensures if y == cur[0] then k < |cur| && y' == cur[k] && k' == 0 else y' == y && k' == k && y !in cur
  {
    if y == cur[0] {
      y', k' := cur[k], 0;
    } else {
      assert y !in Rest(cur);
      assert y !in cur;
      y', k' := y, k;
    }
  }

  lemma DistinctAfterGather(out: seq<seq<Out>>, cur: seq<nat>)
    requires cur != [] && Separate(cur, |out|) && forall j :: 0 <= j < |cur| ==> |out[cur[j]]| == 1
    requires Distinct(out)
    ensures Distinct(GatherOut(out, cur))
  {
    var out' := GatherOut(out, cur);
    forall y: nat, k: nat, y': nat, k': nat, c: nat |
      Owes(out', y, k, c) && Owes(out', y', k', c) && out'[y][k].number == out'[y'][k'].number
      ensures y == y' && k == k'
    {
      var a, i := OwesAfterGather(out, cur, y, k, c);
      var b, j := OwesAfterGather(out, cur, y', k', c);
    }
  }

  /** Each merged continuation still answers lines the merged item asks about. */
  lemma MergedContOk(h: History, s: State, cur: seq<nat>, needs: seq<LineMap>, j: nat)
    requires Shape(s) && ItemsInv(h, s) && CountInv(s) && Mergeable(s, cur) && j < |cur|
    requires forall i :: 0 <= i < |cur| ==> |s.out[cur[i]]| == 1
    requires Curs(s.items[cur[j]].needs) <= Curs(needs)
    ensures ContOk(h, Gathered(s, cur, needs).items, Gathered(s, cur, needs).items[cur[0]], MergedConts(s.items, cur)[j])
  {
    hide NeedsOk, Held, Carried, Stands, SameLines, Rank, Reaches;
    var x := cur[j];
    assert ItemOk(h, s.items, x);
    var c := Conts(s.items[x])[0];
    assert ContOk(h, s.items, s.items[x], c);
    ChildSuspended(h, s, x, 0);
    assert c.child != cur[0];
  }

  lemma GatherOwn(h: History, s: State, cur: seq<nat>, needs: seq<LineMap>)
    requires Shape(s) && ItemsInv(h, s) && CountInv(s) && Mergeable(s, cur)
    requires forall j :: 0 <= j < |cur| ==> |s.out[cur[j]]| == 1 && s.out[cur[j]] == [OutOf(Conts(s.items[cur[j]])[0])]
    requires forall j :: 0 <= j < |cur| ==> cur[j] != 0 && Curs(s.items[cur[j]].needs) <= Curs(needs)
    requires NeedsOk(h, s.items[cur[0]].commit, needs) && Unresolved(needs)
    ensures ItemOk(h, Gathered(s, cur, needs).items, cur[0])
    ensures Gathered(s, cur, needs).out[cur[0]] == Outs(Gathered(s, cur, needs).items[cur[0]])
  {
    hide NeedsOk, ContOk, RightFrom;
    var s', x := Gathered(s, cur, needs), cur[0];
    var it := s'.items[x];
    assert ItemOk(h, s.items, x);
    assert Conts(it) == MergedConts(s.items, cur);
    forall j | 0 <= j < |Conts(it)| ensures ContOk(h, s'.items, it, Conts(it)[j]) {
      MergedContOk(h, s, cur, needs, j);
    }
  }

  lemma GatherItems(h: History, s: State, cur: seq<nat>, needs: seq<LineMap>)
    requires Shape(s) && ItemsInv(h, s) && CountInv(s) && Mergeable(s, cur)
    requires forall j :: 0 <= j < |cur| ==> |s.out[cur[j]]| == 1 && s.out[cur[j]] == [OutOf(Conts(s.items[cur[j]])[0])]
    requires forall j :: 0 <= j < |cur| ==> cur[j] != 0 && Curs(s.items[cur[j]].needs) <= Curs(needs)
    requires NeedsOk(h, s.items[cur[0]].commit, needs) && Unresolved(needs)
    ensures Shape(Gathered(s, cur, needs)) && ItemsInv(h, Gathered(s, cur, needs))
  {
    hide NeedsOk, Held, Carried, Stands, SameLines, Outs;
    var s', x := Gathered(s, cur, needs), cur[0];
    RestExcludesFirst(s, cur);
    GatherOwn(h, s, cur, needs);
    forall z | z in s'.live && z != x
      ensures ItemOk(h, s'.items, z) && s'.out[z] == Outs(s'.items[z])
    {
      assert ItemOk(h, s.items, z);
      forall i | 0 <= i < |Conts(s.items[z])| ensures Conts(s.items[z])[i].child != x {
        ChildSuspended(h, s, z, i);
      }
      ItemOkLocal(h, s.items, s'.items, z);
    }
  }

  lemma GatherCountInv(s: State, cur: seq<nat>, needs: seq<LineMap>)
    requires Shape(s) && CountInv(s) && Mergeable(s, cur)
    requires forall j :: 0 <= j < |cur| ==> |s.out[cur[j]]| == 1 && cur[j] != 0
    ensures Shape(Gathered(s, cur, needs)) && CountInv(Gathered(s, cur, needs))
  {
    hide Distinct;
    DistinctAfterGather(s.out, cur);
    var s' := Gathered(s, cur, needs);
    RestExcludesFirst(s, cur);
    forall y: nat, k: nat, c: nat | Owes(s'.out, y, k, c)
      ensures c in s'.live && c !in s'.waiting
    {
      var y', k' := OwesAfterGather(s.out, cur, y, k, c);
    }
    forall z | z in s'.live && z !in s'.waiting ensures s'.items[z].pending == Count(s'.out, z) {
      GatherCount(s.out, cur, z);
    }
  }

  lemma GatherBusy(h: History, s: State, cur: seq<nat>, needs: seq<LineMap>)
    requires Shape(s) && ItemsInv(h, s) && BusyInv(h, s, {}) && Mergeable(s, cur)
    requires forall j :: 0 <= j < |cur| ==> |s.out[cur[j]]| == 1 && cur[j] != 0
    requires Shape(Gathered(s, cur, needs)) && ItemsInv(h, Gathered(s, cur, needs))
    ensures BusyInv(h, Gathered(s, cur, needs), {})
  {
    hide NeedsOk, Held, ContOk;
    var s' := Gathered(s, cur, needs);
    forall z | z in s'.live && z !in s'.waiting
      ensures s'.items[z].pending > 0 && Covered(h, s', z)
    {
      assert ItemOk(h, s.items, z) && z !in s.waiting;
      forall line, n | Awaited(s.out, z, line, n) ensures Awaited(s'.out, z, line, n) {
        AwaitedAfterGather(s.out, cur, z, line, n);
      }
      StillCovered(h, s, s', z);
    }
  }

  lemma GatherStep(h: History, s: State, cur: seq<nat>, needs: seq<LineMap>)
    requires Inv(h, s, {}) && Mergeable(s, cur) && Unresolved(needs)
    requires forall j :: 0 <= j < |cur| ==> Curs(s.items[cur[j]].needs) <= Curs(needs)
    requires HasFile(h, s.items[cur[0]].commit) && NeedsOk(h, s.items[cur[0]].commit, needs)
    ensures forall j :: 0 <= j < |cur| ==> |s.out[cur[j]]| == 1
    ensures Inv(h, Gathered(s, cur, needs), {}) && cur[0] in Gathered(s, cur, needs).waiting
  {
    MergeableRows(h, s, cur);
    RestExcludesFirst(s, cur);
    GatherItems(h, s, cur, needs);
    GatherCountInv(s, cur, needs);
    GatherBusy(h, s, cur, needs);
  }
}
