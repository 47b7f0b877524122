/** Needs maps: the lines of a file revision that still have to be attributed, and the
    loops of blame.go that split, merge and scatter them. */
module BlameNeeds {
  import opened Graph
  import opened BlameHistory
  import opened Wrappers

  /** `cur` is a line of the item's own revision, `orig` the line of its child's
      revision it was asked for, `commit` the answer once there is one. */
  datatype LineMap = LineMap(orig: nat, cur: nat, commit: Option<Hash>, fromParentNo: int)

  ghost predicate Increasing(needs: seq<LineMap>) {
    forall i, j :: 0 <= i < j < |needs| ==> needs[i].cur < needs[j].cur
  }

  ghost predicate IncreasingOrig(needs: seq<LineMap>) {
    forall i, j :: 0 <= i < j < |needs| ==> needs[i].orig < needs[j].orig
  }

  ghost predicate Unresolved(needs: seq<LineMap>) {
    forall i :: 0 <= i < |needs| ==> needs[i].commit.None?
  }

  ghost predicate Resolved(needs: seq<LineMap>) {
    forall i :: 0 <= i < |needs| ==> needs[i].commit.Some?
  }

  ghost predicate SameLines(a: seq<LineMap>, b: seq<LineMap>) {
    && |a| == |b|
    && forall i :: 0 <= i < |a| ==> a[i].cur == b[i].cur && a[i].orig == b[i].orig
  }

  /** The child's line that an entry answers for. */
  function Key(e: LineMap, identical: bool): nat {
    if identical then e.cur else e.orig
  }

  ghost function Keys(needs: seq<LineMap>, identical: bool): set<nat> {
    set i | 0 <= i < |needs| :: Key(needs[i], identical)
  }

  ghost function Curs(needs: seq<LineMap>): set<nat> {
    Keys(needs, true)
  }

  lemma KeyOf(needs: seq<LineMap>, identical: bool, i: nat)
    requires i < |needs|
    ensures Key(needs[i], identical) in Keys(needs, identical)
  {
  }

  lemma SameLinesKeys(a: seq<LineMap>, b: seq<LineMap>, identical: bool)
    requires SameLines(a, b)
    ensures Keys(a, identical) == Keys(b, identical)
  {
    forall k | k in Keys(a, identical) ensures k in Keys(b, identical) {
      var i :| 0 <= i < |a| && Key(a[i], identical) == k;
      assert Key(b[i], identical) == k;
    }
    forall k | k in Keys(b, identical) ensures k in Keys(a, identical) {
      var i :| 0 <= i < |b| && Key(b[i], identical) == k;
      assert Key(a[i], identical) == k;
    }
  }

  lemma KeysPush(needs: seq<LineMap>, e: LineMap, identical: bool)
    ensures Keys(needs + [e], identical) == Keys(needs, identical) + {Key(e, identical)}
  {
    var s := needs + [e];
    forall k | k in Keys(s, identical) ensures k in Keys(needs, identical) + {Key(e, identical)} {
      var i :| 0 <= i < |s| && Key(s[i], identical) == k;
      if i < |needs| {
        KeyOf(needs, identical, i);
      }
    }
    forall k | k in Keys(needs, identical) + {Key(e, identical)} ensures k in Keys(s, identical) {
      if k in Keys(needs, identical) {
        var i :| 0 <= i < |needs| && Key(needs[i], identical) == k;
        assert s[i] == needs[i];
        KeyOf(s, identical, i);
      } else {
        assert s[|needs|] == e;
        KeyOf(s, identical, |needs|);
      }
    }
  }

  // --- Asking a parent ----------------------------------------------------------

  /** Those of the first `n` needed lines that are carried over. */
  ghost function CarriedOver(a: seq<Option<nat>>, needs: seq<LineMap>, n: nat): set<nat>
    requires n <= |needs| && forall i :: 0 <= i < |needs| ==> needs[i].cur < |a|
  {
    if n == 0 then {}
    else CarriedOver(a, needs, n - 1) + if a[needs[n - 1].cur].Some? then {needs[n - 1].cur} else {}
  }

  /** `get` asks the parent for exactly those of the first `n` needed lines that are
      carried over from it. */
  ghost predicate AsksFor(a: seq<Option<nat>>, needs: seq<LineMap>, n: nat, get: seq<LineMap>)
    requires n <= |needs| && forall i :: 0 <= i < |needs| ==> needs[i].cur < |a|
  {
    && Unresolved(get) && Increasing(get) && IncreasingOrig(get)
    && (forall g :: 0 <= g < |get| ==> get[g].orig < |a| && a[get[g].orig] == Some(get[g].cur))
    && Keys(get, false) == CarriedOver(a, needs, n)
  }

  lemma {:induction false} CarriedOverHas(a: seq<Option<nat>>, needs: seq<LineMap>, n: nat, i: nat)
    requires i < n <= |needs| && forall i :: 0 <= i < |needs| ==> needs[i].cur < |a|
    ensures a[needs[i].cur].Some? ==> needs[i].cur in CarriedOver(a, needs, n)
  {
    if i < n - 1 {
      CarriedOverHas(a, needs, n - 1, i);
    }
  }

  lemma AsksForTake(a: seq<Option<nat>>, needs: seq<LineMap>, n: nat, get: seq<LineMap>, e: LineMap)
    requires n < |needs| && (forall i :: 0 <= i < |needs| ==> needs[i].cur < |a|)
    requires AsksFor(a, needs, n, get)
    requires e.orig == needs[n].cur && a[e.orig] == Some(e.cur) && e.commit.None?
    requires forall g :: 0 <= g < |get| ==> get[g].orig < e.orig && get[g].cur < e.cur
    ensures AsksFor(a, needs, n + 1, get + [e])
  {
    KeysPush(get, e, false);
  }

  /** The old and the new line at which hunk `h` starts. */
  ghost function OldStart(hunks: seq<Hunk>, h: nat): nat
    requires h <= |hunks|
  {
    if h == 0 then 0 else OldStart(hunks, h - 1) + if hunks[h - 1].op.Insert? then 0 else |hunks[h - 1].lines|
  }

  ghost function NewStart(hunks: seq<Hunk>, h: nat): nat
    requires h <= |hunks|
  {
    if h == 0 then 0 else NewStart(hunks, h - 1) + if hunks[h - 1].op.Delete? then 0 else |hunks[h - 1].lines|
  }

  /** The alignment of the `n` lines of one hunk that starts at old line `p` and new line `c`. */
  ghost predicate HunkAligned(a: seq<Option<nat>>, op: Op, n: nat, p: nat, c: nat) {
    !op.Delete? ==> c + n <= |a| && a[c..c + n] == if op.Equal? then Kept(p, n) else New(n)
  }

  lemma LineAligned(a: seq<Option<nat>>, op: Op, n: nat, p: nat, c: nat, l: nat)
    requires HunkAligned(a, op, n, p, c) && l < n && !op.Delete?
    ensures c + l < |a| && a[c + l] == if op.Equal? then Some(p + l) else None
  {
    assert a[c..c + n][l] == a[c + l];
  }

  lemma {:induction false} AlignmentFrom(hunks: seq<Hunk>, h: nat)
    requires h <= |hunks|
    ensures var a := Alignment(hunks, 0);
            NewStart(hunks, h) <= |a| && a[NewStart(hunks, h)..] == Alignment(hunks[h..], OldStart(hunks, h))
  {
    if h == 0 {
      assert hunks[0..] == hunks;
    } else {
      AlignmentFrom(hunks, h - 1);
      assert hunks[h - 1..][1..] == hunks[h..];
      var a, c, n := Alignment(hunks, 0), NewStart(hunks, h - 1), |hunks[h - 1].lines|;
      if !hunks[h - 1].op.Delete? {
        assert a[c..][n..] == Alignment(hunks[h..], OldStart(hunks, h));
        assert a[c + n..] == a[c..][n..];
      }
    }
  }

  lemma {:induction false} AlignmentOfHunk(hunks: seq<Hunk>, h: nat)
    requires h < |hunks|
    ensures HunkAligned(Alignment(hunks, 0), hunks[h].op, |hunks[h].lines|, OldStart(hunks, h), NewStart(hunks, h))
  {
    AlignmentFrom(hunks, h);
    if !hunks[h].op.Delete? {
      var a, c, n := Alignment(hunks, 0), NewStart(hunks, h), |hunks[h].lines|;
      assert hunks[h..][0] == hunks[h];
      assert a[c..c + n] == a[c..][..n];
    }
  }

  /** A line comes from the same line of an equal file; otherwise a line of a hunk that both files
      share comes from where the hunk has it, and an inserted line comes from nowhere. */
  lemma {:induction false} LineMatchIs(h: History, c: Hash, p: Hash, k: nat, l: nat)
    requires HasFile(h, c) && HasFile(h, p)
    requires var hunks := h.diff(Lines(h, p), Lines(h, c)); k < |hunks| && l < |hunks[k].lines| && !hunks[k].op.Delete?
    ensures var hunks := h.diff(Lines(h, p), Lines(h, c));
            Lines(h, p) != Lines(h, c) ==>
              LineMatch(h, c, p, NewStart(hunks, k) + l) ==
                if hunks[k].op.Equal? then Some(OldStart(hunks, k) + l) else None
    ensures Lines(h, p) == Lines(h, c) && l < |Lines(h, c)| ==> LineMatch(h, c, p, l) == Some(l)
  {
    var hunks := h.diff(Lines(h, p), Lines(h, c));
    AlignmentOfHunk(hunks, k);
    LineAligned(Alignment(hunks, 0), hunks[k].op, |hunks[k].lines|, OldStart(hunks, k), NewStart(hunks, k), l);
  }

  lemma {:induction false} AlignmentEnd(hunks: seq<Hunk>)
    ensures NewStart(hunks, |hunks|) == |Alignment(hunks, 0)|
  {
    AlignmentFrom(hunks, |hunks|);
    assert hunks[|hunks|..] == [];
  }

  /** The part of the hunk loop that does not depend on where it stands inside a hunk. */
  ghost predicate Asking(a: seq<Option<nat>>, needs: seq<LineMap>, need: nat, get: seq<LineMap>, p: nat, c: nat) {
    && need <= |needs|
    && (forall i :: 0 <= i < |needs| ==> needs[i].cur < |a|)
    && AsksFor(a, needs, need, get)
    && (forall g :: 0 <= g < |get| ==> get[g].orig < c && get[g].cur < p)
    && (need < |needs| ==> c <= needs[need].cur)
  }

  lemma EqualLine(a: seq<Option<nat>>, needs: seq<LineMap>, need: nat, get: seq<LineMap>, p: nat, c: nat)
    requires Increasing(needs) && need < |needs| && Asking(a, needs, need, get, p, c)
    requires c < |a| && a[c] == Some(p)
    ensures c == needs[need].cur ==> Asking(a, needs, need + 1, get + [LineMap(c, p, None, -1)], p + 1, c + 1)
    ensures c != needs[need].cur ==> Asking(a, needs, need, get, p + 1, c + 1)
  {
    if c == needs[need].cur {
      AsksForTake(a, needs, need, get, LineMap(c, p, None, -1));
    }
  }

  lemma InsertLine(a: seq<Option<nat>>, needs: seq<LineMap>, need: nat, get: seq<LineMap>, p: nat, c: nat)
    requires Increasing(needs) && need < |needs| && Asking(a, needs, need, get, p, c)
    requires c < |a| && a[c] == None
    ensures c == needs[need].cur ==> Asking(a, needs, need + 1, get, p, c + 1)
    ensures c != needs[need].cur ==> Asking(a, needs, need, get, p, c + 1)
  {
    assert CarriedOver(a, needs, need + 1) == CarriedOver(a, needs, need) + if a[needs[need].cur].Some? then {needs[need].cur} else {};
  }

  lemma DeletedLines(a: seq<Option<nat>>, needs: seq<LineMap>, need: nat, get: seq<LineMap>, p: nat, c: nat, n: nat)
    requires Asking(a, needs, need, get, p, c)
    ensures Asking(a, needs, need, get, p + n, c)
  {
  }

  /** One line that both sides have: line `prevl` of the parent is line `curl` here. */
  method AskEqualLine(ghost a: seq<Option<nat>>, needs: seq<LineMap>, need: nat, get: seq<LineMap>, prevl: nat, curl: nat)
    returns (need': nat, get': seq<LineMap>)
    requires Increasing(needs) && need < |needs| && Asking(a, needs, need, get, prevl, curl)
    requires curl < |a| && a[curl] == Some(prevl)
    ensures Asking(a, needs, need', get', prevl + 1, curl + 1)
  {
    EqualLine(a, needs, need, get, prevl, curl);
    if curl == needs[need].cur {
      return need + 1, get + [LineMap(curl, prevl, None, -1)];
    }
    return need, get;
  }

  /** One line that only this side has. */
  method AskInsertedLine(ghost a: seq<Option<nat>>, needs: seq<LineMap>, need: nat, ghost get: seq<LineMap>,
                         ghost prevl: nat, curl: nat)
    returns (need': nat)
    requires Increasing(needs) && need < |needs| && Asking(a, needs, need, get, prevl, curl)
    requires curl < |a| && a[curl] == None
    ensures Asking(a, needs, need', get, prevl, curl + 1)
  {
    InsertLine(a, needs, need, get, prevl, curl);
    if curl == needs[need].cur {
      return need + 1;
    }
    return need;
  }

  /** The lines of a hunk that both sides have, up to the last needed one. */
  method AskEqualHunk(ghost a: seq<Option<nat>>, hLines: nat, needs: seq<LineMap>, need0: nat, get0: seq<LineMap>,
                      prevl0: nat, curl0: nat)
    returns (need: nat, get: seq<LineMap>)
    requires Increasing(needs) && need0 < |needs|
    requires HunkAligned(a, Equal, hLines, prevl0, curl0)
    requires Asking(a, needs, need0, get0, prevl0, curl0)
    ensures need <= |needs| && (forall i :: 0 <= i < |needs| ==> needs[i].cur < |a|)
    ensures need < |needs| ==> Asking(a, needs, need, get, prevl0 + hLines, curl0 + hLines)
    ensures AsksFor(a, needs, need, get)
  {
    need, get := need0, get0;
    for hl := 0 to hLines
      invariant need < |needs| && Asking(a, needs, need, get, prevl0 + hl, curl0 + hl)
    {
      LineAligned(a, Equal, hLines, prevl0, curl0, hl);
      need, get := AskEqualLine(a, needs, need, get, prevl0 + hl, curl0 + hl);
      if need >= |needs| {
        return;
      }
    }
  }

  /** The lines of a hunk that only this side has, up to the last needed one. */
  method AskInsertedHunk(ghost a: seq<Option<nat>>, hLines: nat, needs: seq<LineMap>, need0: nat, ghost get: seq<LineMap>,
                         ghost prevl: nat, curl0: nat)
    returns (need: nat)
    requires Increasing(needs) && need0 < |needs|
    requires HunkAligned(a, Insert, hLines, prevl, curl0)
    requires Asking(a, needs, need0, get, prevl, curl0)
    ensures need <= |needs| && (forall i :: 0 <= i < |needs| ==> needs[i].cur < |a|)
    ensures need < |needs| ==> Asking(a, needs, need, get, prevl, curl0 + hLines)
    ensures AsksFor(a, needs, need, get)
  {
    need := need0;
    for hl := 0 to hLines
      invariant need < |needs| && Asking(a, needs, need, get, prevl, curl0 + hl)
    {
      LineAligned(a, Insert, hLines, prevl, curl0, hl);
      need := AskInsertedLine(a, needs, need, get, prevl, curl0 + hl);
      if need >= |needs| {
        return;
      }
    }
  }

  /** One hunk. */
  method AskHunk(ghost a: seq<Option<nat>>, hunk: Hunk, needs: seq<LineMap>, need0: nat, get0: seq<LineMap>,
                 prevl: nat, curl: nat)
    returns (need: nat, get: seq<LineMap>)
    requires Increasing(needs) && (need0 < |needs| || (needs == [] && a == []))
    requires HunkAligned(a, hunk.op, |hunk.lines|, prevl, curl)
    requires Asking(a, needs, need0, get0, prevl, curl)
    ensures need <= |needs| && (forall i :: 0 <= i < |needs| ==> needs[i].cur < |a|) && AsksFor(a, needs, need, get)
    ensures need < |needs| || needs == [] ==>
              Asking(a, needs, need, get, prevl + (if hunk.op.Insert? then 0 else |hunk.lines|),
                     curl + (if hunk.op.Delete? then 0 else |hunk.lines|))
  {
    var hLines := |hunk.lines|;
    if hLines == 0 {
      return need0, get0;
    }
    match hunk.op {
      case Equal =>
        need, get := AskEqualHunk(a, hLines, needs, need0, get0, prevl, curl);
      case Insert =>
        get := get0;
        need := AskInsertedHunk(a, hLines, needs, need0, get, prevl, curl);
      case Delete =>
        DeletedLines(a, needs, need0, get0, prevl, curl, hLines);
        return need0, get0;
    }
  }

  /** The hunk loop of `addBlames`: which needed lines to ask the parent for. */
  method AskParent(hunks: seq<Hunk>, needs: seq<LineMap>, ghost a: seq<Option<nat>>) returns (get: seq<LineMap>)
    requires a == Alignment(hunks, 0)
    requires Increasing(needs) && forall i :: 0 <= i < |needs| ==> needs[i].cur < |a|
    requires needs == [] ==> a == []
    ensures AsksFor(a, needs, |needs|, get)
  {
    var prevl: nat, curl: nat, need: nat := 0, 0, 0;
    get := [];
    for h := 0 to |hunks|
      invariant prevl == OldStart(hunks, h) && curl == NewStart(hunks, h)
      invariant Asking(a, needs, need, get, prevl, curl)
      invariant need < |needs| || needs == []
    {
      AlignmentOfHunk(hunks, h);
      need, get := AskHunk(a, hunks[h], needs, need, get, prevl, curl);
      if need >= |needs| && needs != [] {
        return;
      }
      prevl := prevl + if hunks[h].op.Insert? then 0 else |hunks[h].lines|;
      curl := curl + if hunks[h].op.Delete? then 0 else |hunks[h].lines|;
    }
    AlignmentEnd(hunks);
  }

  // --- Merging needs maps ---------------------------------------------------------

  /** How far the merge of `b` into `a` has come: `r` holds `a` and the first `k` lines of `b`. */
  ghost predicate Merging(a: seq<LineMap>, b: seq<LineMap>, k: nat, r: seq<LineMap>)
    requires k <= |b|
  {
    && Increasing(r) && Unresolved(r)
    && Curs(a) + Curs(b[..k]) <= Curs(r) <= Curs(a) + Curs(b)
  }

  lemma CursExtend(b: seq<LineMap>, k: nat)
    requires k < |b|
    ensures Curs(b[..k + 1]) == Curs(b[..k]) + {b[k].cur}
  {
    assert b[..k + 1] == b[..k] + [b[k]];
    KeysPush(b[..k], b[k], true);
  }

  lemma CursConcat(a: seq<LineMap>, b: seq<LineMap>)
    ensures Curs(a + b) == Curs(a) + Curs(b)
  {
    var s := a + b;
    forall x | x in Curs(s) ensures x in Curs(a) + Curs(b) {
      var i :| 0 <= i < |s| && Key(s[i], true) == x;
      if i < |a| {
        assert Key(a[i], true) == x;
      } else {
        assert Key(b[i - |a|], true) == x;
      }
    }
    forall x | x in Curs(a) + Curs(b) ensures x in Curs(s) {
      if x in Curs(a) {
        var i :| 0 <= i < |a| && Key(a[i], true) == x;
        assert Key(s[i], true) == x;
      } else {
        var i :| 0 <= i < |b| && Key(b[i], true) == x;
        assert Key(s[|a| + i], true) == x;
      }
    }
  }

  /** Inserting at position `n` by appending and swapping down. */
  method InsertAt(s: seq<LineMap>, n: nat, x: LineMap) returns (r: seq<LineMap>)
    requires n <= |s|
    ensures r == s[..n] + [x] + s[n..]
  {
    r := s + [x];
    var newPos := |r| - 1;
    while newPos > n
      invariant n <= newPos < |r| == |s| + 1
      invariant r == s[..newPos] + [x] + s[newPos..]
    {
      r := r[newPos - 1 := r[newPos]][newPos := r[newPos - 1]];
      newPos := newPos - 1;
    }
  }

  lemma InsertKeepsIncreasing(s: seq<LineMap>, n: nat, x: LineMap)
    requires n <= |s| && Increasing(s) && Unresolved(s) && x.commit.None?
    requires forall i :: 0 <= i < n ==> s[i].cur < x.cur
    requires n < |s| ==> x.cur < s[n].cur
    ensures Increasing(s[..n] + [x] + s[n..]) && Unresolved(s[..n] + [x] + s[n..])
  {
    var r := s[..n] + [x] + s[n..];
    assert forall i :: 0 <= i < |r| ==> r[i] == if i < n then s[i] else if i == n then x else s[i - 1];
  }

  lemma InsertCurs(s: seq<LineMap>, n: nat, x: LineMap)
    requires n <= |s|
    ensures Curs(s[..n] + [x] + s[n..]) == Curs(s) + {x.cur}
  {
    CursConcat(s[..n] + [x], s[n..]);
    CursConcat(s[..n], [x]);
    CursConcat(s[..n], s[n..]);
    assert s == s[..n] + s[n..];
    assert Curs([x]) == {x.cur} by { KeyOf([x], true, 0); }
  }

  /** What the merge loop knows of its two positions. */
  ghost predicate MergeAt(r: seq<LineMap>, n: nat, b: seq<LineMap>, c: nat) {
    && n <= |r| && c <= |b|
    && (forall i :: 0 <= i < n && c < |b| ==> r[i].cur < b[c].cur)
  }

  lemma RestAfterEnd(a: seq<LineMap>, b: seq<LineMap>, c: nat, r: seq<LineMap>)
    requires Increasing(b) && Unresolved(b) && c < |b| && Merging(a, b, c, r) && MergeAt(r, |r|, b, c)
    ensures Merging(a, b, |b|, r + b[c..])
  {
    CursConcat(r, b[c..]);
    CursConcat(b[..c], b[c..]);
    assert b[..c] + b[c..] == b == b[..|b|];
  }

  /** The merge loop of `addBlames`: the strictly increasing union of two needs maps. */
  method MergeNeeds(a: seq<LineMap>, b: seq<LineMap>) returns (r: seq<LineMap>)
    requires Increasing(a) && Unresolved(a) && Increasing(b) && Unresolved(b)
    ensures Increasing(r) && Unresolved(r)
    ensures Curs(r) == Curs(a) + Curs(b)
  {
    r := a;
    var n, c := 0, 0;
    assert Curs(b[..0]) == {};
    while c < |b|
      invariant MergeAt(r, n, b, c) && Merging(a, b, c, r)
      decreases |b| - c, if n < |r| && c < |b| && r[n].cur == b[c].cur then 0 else 1, |r| - n
    {
      if n == |r| {
        RestAfterEnd(a, b, c, r);
        r := r + b[c..];
        c := |b|;
        break;
      } else if r[n].cur == b[c].cur {
        CursExtend(b, c);
        KeyOf(r, true, n);
        n, c := n + 1, c + 1;
      } else if r[n].cur < b[c].cur {
        n := n + 1;
      } else {
        InsertKeepsIncreasing(r, n, b[c]);
        InsertCurs(r, n, b[c]);
        KeyOf(b, true, c);
        r := InsertAt(r, n, b[c]);
      }
    }
    assert b[..|b|] == b;
  }

  // --- Handing answers back -------------------------------------------------------

  /** The loop of `finishNeeds` that copies the answers of a merged needs map back into
      one of the maps it was made from. */
  method Scatter(part: seq<LineMap>, merged: seq<LineMap>) returns (r: seq<LineMap>)
    requires Increasing(part) && Increasing(merged) && Curs(part) <= Curs(merged)
    ensures SameLines(r, part)
    ensures forall p :: 0 <= p < |r| ==> AnsweredBy(r[p], merged)
  {
    r := part;
    var m, p := 0, 0;
    while p < |r|
      invariant 0 <= p <= |r| && 0 <= m <= |merged| && SameLines(r, part)
      invariant forall q :: 0 <= q < p ==> AnsweredBy(r[q], merged)
      invariant forall i, q :: 0 <= i < m && p <= q < |r| ==> merged[i].cur < r[q].cur
      decreases |r| - p + |merged| - m
    {
      ghost var i := PositionOf(merged, part, p);
      if r[p].cur == merged[m].cur {
        r := r[p := r[p].(commit := merged[m].commit)];
        assert AnsweredBy(r[p], merged);
        m, p := m + 1, p + 1;
      } else if r[p].cur < merged[m].cur {
        p := p + 1;
      } else {
        m := m + 1;
      }
    }
  }

  ghost predicate AnsweredBy(e: LineMap, merged: seq<LineMap>) {
    exists m :: 0 <= m < |merged| && merged[m].cur == e.cur && merged[m].commit == e.commit
  }

  lemma PositionOf(merged: seq<LineMap>, part: seq<LineMap>, p: nat) returns (i: nat)
    requires Curs(part) <= Curs(merged) && p < |part|
    ensures i < |merged| && merged[i].cur == part[p].cur
  {
    KeyOf(part, true, p);
    i :| 0 <= i < |merged| && Key(merged[i], true) == part[p].cur;
  }

  /** The entry of an item after one of its parents answered: an earlier answer stays
      unless the new one comes from a parent with a lower number. */
  function Answer(l: LineMap, commit: Option<Hash>, parentNo: int): LineMap {
    if l.commit.None? || parentNo < l.fromParentNo then l.(commit := commit, fromParentNo := parentNo) else l
  }

  /** Lines nobody else answered for are the commit's own. */
  function Finish(needs: seq<LineMap>, commit: Hash): seq<LineMap> {
    seq(|needs|, i requires 0 <= i < |needs| =>
      if needs[i].commit.None? then needs[i].(commit := Some(commit), fromParentNo := -1) else needs[i])
  }

  /** The answers for the same lines, entered one by one. */
  function Enter(child: seq<LineMap>, needs: seq<LineMap>, parentNo: int): seq<LineMap>
    requires |needs| == |child|
  {
    seq(|child|, j requires 0 <= j < |child| => Answer(child[j], needs[j].commit, parentNo))
  }

  /** What `applyNeeds` makes of one entry of the child. */
  ghost predicate Applied(before: LineMap, after: LineMap, needs: seq<LineMap>, identical: bool, parentNo: int) {
    && (before.cur !in Keys(needs, identical) ==> after == before)
    && (before.cur in Keys(needs, identical) ==>
          exists i :: 0 <= i < |needs| && Key(needs[i], identical) == before.cur
                      && after == Answer(before, needs[i].commit, parentNo))
  }

  /** `applyNeeds` when the blob is the child's own: the two maps run in step, and the
      error the source guards against cannot occur. */
  method ApplyIdentical(child: seq<LineMap>, needs: seq<LineMap>, parentNo: int) returns (ok: bool, r: seq<LineMap>)
    requires SameLines(needs, child)
    ensures ok && r == Enter(child, needs, parentNo)
    ensures forall j :: 0 <= j < |child| ==> Applied(child[j], r[j], needs, true, parentNo)
  {
    r := child;
    for i := 0 to |child|
      invariant |r| == |child|
      invariant forall j :: 0 <= j < i ==> Applied(child[j], r[j], needs, true, parentNo)
      invariant forall j :: 0 <= j < i ==> r[j] == Answer(child[j], needs[j].commit, parentNo)
      invariant forall j :: i <= j < |r| ==> r[j] == child[j]
    {
      if r[i].cur != needs[i].cur || r[i].orig != needs[i].orig {
        return false, r;
      }
      KeyOf(needs, true, i);
      r := r[i := Answer(r[i], needs[i].commit, parentNo)];
      assert Key(needs[i], true) == child[i].cur;
      assert Applied(child[i], r[i], needs, true, parentNo);
    }
    return true, r;
  }

  /** `applyNeeds` when the parent's file differs: the parent's answers are found by
      the line of the child they were asked for. */
  method ApplyByOrig(child: seq<LineMap>, needs: seq<LineMap>, parentNo: int) returns (r: seq<LineMap>)
    requires Increasing(child) && IncreasingOrig(needs) && needs != []
    ensures |r| == |child|
    ensures forall j :: 0 <= j < |child| ==> Applied(child[j], r[j], needs, false, parentNo)
  {
    r := child;
    var i := 0;
    for j := 0 to |child|
      invariant |r| == |child| && 0 <= i < |needs|
      invariant forall k :: 0 <= k < j ==> Applied(child[k], r[k], needs, false, parentNo)
      invariant forall k :: j <= k < |r| ==> r[k] == child[k]
      invariant forall m, k :: 0 <= m < i && j <= k < |child| ==> needs[m].orig < child[k].cur
    {
      while needs[i].orig < child[j].cur
        invariant 0 <= i < |needs|
        invariant forall m, k :: 0 <= m < i && j <= k < |child| ==> needs[m].orig < child[k].cur
        decreases |needs| - i
      {
        i := i + 1;
        if i == |needs| {
          forall k | j <= k < |child| ensures Applied(child[k], r[k], needs, false, parentNo) {
            NotAsked(child[k], needs, |needs|);
          }
          return;
        }
      }
      if child[j].cur == needs[i].orig {
        KeyOf(needs, false, i);
        r := r[j := Answer(r[j], needs[i].commit, parentNo)];
        assert Key(needs[i], false) == child[j].cur;
      } else {
        NotAsked(child[j], needs, i);
      }
      assert Applied(child[j], r[j], needs, false, parentNo);
    }
  }

  lemma NotAsked(l: LineMap, needs: seq<LineMap>, i: nat)
    requires IncreasingOrig(needs) && i <= |needs|
    requires forall m :: 0 <= m < i ==> needs[m].orig < l.cur
    requires i < |needs| ==> l.cur < needs[i].orig
    ensures l.cur !in Keys(needs, false)
  {
  }
}
