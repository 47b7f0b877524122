/** Moving references without losing history: what a push plans and what a fetch does. */
module FastForward {
  import opened Graph
  import opened ObjectGraph
  import opened CommitWalkers
  import opened Wrappers

  // --- Reference specifications -----------------------------------------------------------

  datatype Pattern = Exact(name: string) | Glob(prefix: string, suffix: string)

  /** A parsed refspec.  Either both sides have a wildcard or none has. */
  datatype RefSpec = RefSpec(force: bool, src: Pattern, dst: Pattern) {
    predicate IsWildcard() { src.Glob? || dst.Glob? }

    predicate IsDelete() { !force && src == Exact("") }

    ghost predicate Valid() { src.Glob? == dst.Glob? }
  }

  predicate Matches(p: Pattern, n: string) {
    match p
    case Exact(name) => n == name
    case Glob(prefix, suffix) =>
      |n| >= |prefix| + |suffix| && prefix <= n && n[|n| - |suffix|..] == suffix
  }

  /** The destination for the name `n`. */
  function Dst(rs: RefSpec, n: string): string
    requires rs.Valid() && (rs.IsWildcard() ==> Matches(rs.src, n))
  {
    match rs.dst
    case Exact(name) => name
    case Glob(prefix, suffix) => prefix + n[|rs.src.prefix|..|n| - |rs.src.suffix|] + suffix
  }

  /** A wildcard stands for any middle part, and the destination has the same one. */
  lemma GlobIs(rs: RefSpec, n: string)
    requires rs.Valid() && rs.src.Glob?
    ensures Matches(rs.src, n) <==> exists m: string :: n == rs.src.prefix + m + rs.src.suffix
    ensures forall m: string :: n == rs.src.prefix + m + rs.src.suffix ==>
              Matches(rs.src, n) && Dst(rs, n) == rs.dst.prefix + m + rs.dst.suffix
  {
    var Glob(p, q) := rs.src;
    if Matches(rs.src, n) {
      assert n == p + n[|p|..|n| - |q|] + q;
    }
    forall m: string | n == p + m + q
      ensures Matches(rs.src, n) && Dst(rs, n) == rs.dst.prefix + m + rs.dst.suffix
    {
      assert n[|p|..|n| - |q|] == m && n[|n| - |q|..] == q;
    }
  }

  /** The two sides swapped.  The mark of a forced update stays in front of what was the
      source. */
  function Reverse(rs: RefSpec): RefSpec {
    var plus := if rs.force then "+" else "";
    RefSpec(false, rs.dst,
            match rs.src case Exact(n) => Exact(plus + n) case Glob(p, q) => Glob(plus + p, q))
  }

  /** Going back from the destination of a name gives the name, unless updates are forced. */
  lemma ReverseDst(rs: RefSpec, n: string)
    requires rs.Valid() && Matches(rs.src, n)
    ensures Matches(Reverse(rs).src, Dst(rs, n))
    ensures Dst(Reverse(rs), Dst(rs, n)) == (if rs.force then "+" + n else n)
  {
    if rs.dst.Glob? {
      var Glob(p, q) := rs.src;
      var Glob(p', q') := rs.dst;
      var m := n[|p|..|n| - |q|];
      var d := p' + m + q';
      assert Dst(rs, n) == d && d[|p'|..|d| - |q'|] == m && d[|d| - |q'|..] == q';
      assert n == p + m + q;
      assert "+" + (p + m + q) == "+" + p + m + q;
      assert "" + p == p;
    }
  }

  // --- Fast-forward -------------------------------------------------------------------------

  datatype FFResult = FastForward | NotFastForward | Failed

  /** The parents of the earliest shallow commit, where a walk stops. */
  ghost function Boundary(s: Store, shallow: Option<Hash>): set<Hash> {
    if shallow.Some? && IsCommit(s, shallow.value) then Elements(s[shallow.value].parents) else {}
  }

  /** `was` is met on a walk through the history of `now` that ignores the boundary. */
  ghost predicate Ahead(s: Store, was: Hash, now: Hash, ignored: set<Hash>) {
    was !in ignored && ReachesUpTo(CommitGraph(s), now, was, ignored)
  }

  /** `isFastForward`: whether `was` is in the history of `now`, when that can be told. */
  method IsFastForward(s: Store, was: Hash, now: Hash, shallow: Option<Hash>) returns (r: FFResult)
    ensures r.FastForward? ==> IsCommit(s, now) && Ahead(s, was, now, Boundary(s, shallow))
    ensures r.NotFastForward? ==> IsCommit(s, now) && !Ahead(s, was, now, Boundary(s, shallow))
    ensures !r.Failed? && shallow.None? ==> (r.FastForward? <==> Reaches(CommitGraph(s), now, was))
    ensures !r.Failed? && shallow.Some? ==>
              && IsCommit(s, shallow.value)
              && var cut := s[shallow.value].parents;
                 r.FastForward? <==> was !in cut && ReachesUpTo(CommitGraph(s), now, was, Elements(cut))
    ensures r.Failed? ==> !IsCommit(s, now) || !CompleteFrom(CommitGraph(s), now)
                          || (shallow.Some? && !IsCommit(s, shallow.value))
  {
    hide Reaches, ReachesUpTo, Frontier;
    if now !in s || !s[now].Commit? {
      return Failed;
    }
    var parentsToIgnore := [];
    if shallow.Some? {
      if shallow.value !in s || !s[shallow.value].Commit? {
        return Failed;
      }
      parentsToIgnore := s[shallow.value].parents;
    }
    var g := CommitGraph(s);
    var it := new CommitPreIter(g, now, {}, parentsToIgnore);
    ghost var ignored := Boundary(s, shallow);
    assert it.skipped == it.ignored == ignored;
    NoLimit(g, now, was);
    while true
      invariant it.Valid() && fresh(it) && it.g == g && it.start == now && it.skipped == it.ignored == ignored
      invariant was !in it.visited
      decreases g.Keys - it.visited
    {
      var step := it.Next({});
      match step {
        case Missing => return Failed;
        case Done => return NotFastForward;
        case Got(c) =>
          if c == was {
            VisitedIsReached(g, now, ignored, it.visited, it.Pending(), c);
            return FastForward;
          }
      }
    }
  }

  lemma VisitedIsReached(g: Edges, start: Hash, ignored: set<Hash>, visited: set<Hash>, pending: set<Hash>, c: Hash)
    requires Frontier(g, start, ignored, ignored, visited, pending) && c in visited
    ensures ReachesUpTo(g, start, c, ignored)
  {
  }

  // --- Planning a push ------------------------------------------------------------------------

  datatype RefValue = HashRef(hash: Hash) | SymbolicRef(target: string)

  datatype Reference = Reference(name: string, value: RefValue)

  type Refs = map<string, RefValue>

  datatype Command = Command(name: string, was: Hash, now: Hash)

  datatype Lease = Lease(refName: string, hash: Hash)

  datatype PlanError = NonFastForward(name: string) | CannotTell | LeaseBroken | NoTrackingRef

  datatype Plan = Planned | Refused(error: PlanError)

  /** Everything a plan depends on besides the refspecs: local objects and references, the
      remote's references, which hash a name spells, the lease and the remote-tracking
      references that leases refer to. */
  datatype Setting = Setting(
    store: Store, locals: seq<Reference>, remotes: Refs, spelled: string -> Hash,
    lease: Option<Lease>, tracking: map<string, Hash>)

  /** What the remote's reference `n` would be moved from to get to `h`, if anywhere. */
  function Move(remotes: Refs, n: string, h: Hash): Option<Command> {
    if n in remotes && remotes[n].SymbolicRef? then None
    else
      var was := if n in remotes then remotes[n].hash else ZERO_HASH;
      if was == h then None else Some(Command(n, was, h))
  }

  /** There is nothing to move exactly if the reference is symbolic or has the value already; a new
      reference is moved from the zero hash. */
  lemma MoveIs(remotes: Refs, n: string, h: Hash)
    ensures Move(remotes, n, h).None? <==>
            if n in remotes then remotes[n].SymbolicRef? || remotes[n] == HashRef(h) else h == ZERO_HASH
    ensures Move(remotes, n, h).Some? ==>
              var c := Move(remotes, n, h).value;
              c.name == n && c.now == h && if n in remotes then remotes[n] == HashRef(c.was) else c.was == ZERO_HASH
  {
  }

  /** The move loses nothing: the reference is new, or its old value is in the history of
      the new one. */
  ghost predicate KeepsHistory(st: Setting, c: Command) {
    c.name !in st.remotes || (IsCommit(st.store, c.now) && Reaches(CommitGraph(st.store), c.now, c.was))
  }

  /** The lease names another reference, or the remote still has what it expects. */
  ghost predicate LeaseHolds(st: Setting, local: string, c: Command) {
    && st.lease.Some? && local in st.tracking
    && (st.lease.value.refName == "" || st.lease.value.refName == c.name ==>
          c.was == if st.lease.value.hash != ZERO_HASH then st.lease.value.hash else st.tracking[local])
  }

  /** The values a refspec sends: those of matching local hash references, or of an object
      spelled out by its hash. */
  ghost predicate Sends(st: Setting, rs: RefSpec, n: string, h: Hash, spelledOut: bool) {
    && rs.Valid()
    && if spelledOut then
      !rs.IsWildcard() && (forall r :: r in st.locals ==> r.name != rs.src.name)
      && n == rs.src.name && h == st.spelled(n) && h in st.store
    else
      Matches(rs.src, n) && LastValue(st.locals, n, rs.IsWildcard(), HashRef(h))
  }

  /** A local reference: any of that name for wildcards, else the last one. */
  ghost predicate LastValue(locals: seq<Reference>, n: string, any: bool, v: RefValue) {
    exists i :: 0 <= i < |locals| && locals[i] == Reference(n, v)
      && (any || forall j :: i < j < |locals| ==> locals[j].name != n)
  }

  /** A command is allowed: by the lease, by force, or because it keeps history. */
  ghost predicate Allowed(st: Setting, rs: RefSpec, local: string, spelledOut: bool, c: Command) {
    if st.lease.Some? && !spelledOut then LeaseHolds(st, local, c)
    else rs.force || KeepsHistory(st, c)
  }

  /** A planned command and why. */
  ghost predicate Justified(st: Setting, rs: RefSpec, c: Command) {
    exists n, h, spelledOut :: Sends(st, rs, n, h, spelledOut) && Move(st.remotes, Dst(rs, n), h) == Some(c)
      && Allowed(st, rs, n, spelledOut, c)
  }

  /** `checkFastForwardUpdate`. */
  method CheckFastForwardUpdate(st: Setting, c: Command) returns (r: Plan)
    requires c.name in st.remotes ==> st.remotes[c.name] == HashRef(c.was)
    requires c.name !in st.remotes ==> c.was == ZERO_HASH
    ensures r.Planned? ==> KeepsHistory(st, c)
    ensures r == Refused(NonFastForward(c.name)) ==>
      c.name in st.remotes && (c.was == ZERO_HASH || !Reaches(CommitGraph(st.store), c.now, c.was))
    ensures r.Refused? ==> r.error == NonFastForward(c.name) || r.error == CannotTell
    ensures r == Refused(CannotTell) ==> !IsCommit(st.store, c.now) || !CompleteFrom(CommitGraph(st.store), c.now)
  {
    hide Reaches;
    if c.was == ZERO_HASH {
      if c.name !in st.remotes {
        return Planned;
      }
      return Refused(NonFastForward(c.name));
    }
    var ff := IsFastForward(st.store, c.was, c.now, None);
    match ff {
      case Failed => return Refused(CannotTell);
      case NotFastForward => return Refused(NonFastForward(c.name));
      case FastForward => return Planned;
    }
  }

  /** `checkForceWithLease`. */
  method CheckForceWithLease(st: Setting, local: string, c: Command) returns (r: Plan)
    requires st.lease.Some?
    ensures r.Planned? <==> LeaseHolds(st, local, c)
    ensures r == Refused(NoTrackingRef) <==> local !in st.tracking
    ensures r == Refused(LeaseBroken) <==>
            && local in st.tracking && (st.lease.value.refName == c.name || st.lease.value.refName == "")
            && (if st.lease.value.hash == ZERO_HASH then c.was != st.tracking[local] else c.was != st.lease.value.hash)
    ensures r.Refused? ==> r.error.NoTrackingRef? || r.error.LeaseBroken?
  {
    if local !in st.tracking {
      return Refused(NoTrackingRef);
    }
    var Lease(refName, hash) := st.lease.value;
    if refName == "" || refName == c.name {
      var expected := if hash != ZERO_HASH then hash else st.tracking[local];
      if c.was != expected {
        return Refused(LeaseBroken);
      }
    }
    return Planned;
  }

  /** Why a plan is refused: some value that would be sent may not be. */
  ghost predicate Refusable(st: Setting, rs: RefSpec, e: PlanError) {
    exists n, h, spelledOut :: Sends(st, rs, n, h, spelledOut) && Move(st.remotes, Dst(rs, n), h).Some?
      && Blocked(st, rs, n, spelledOut, Move(st.remotes, Dst(rs, n), h).value, e)
  }

  ghost predicate Blocked(st: Setting, rs: RefSpec, local: string, spelledOut: bool, c: Command, e: PlanError) {
    match e
    case NonFastForward(n) =>
      !rs.force && n == c.name && n in st.remotes && (c.was == ZERO_HASH || !Reaches(CommitGraph(st.store), c.now, c.was))
    case CannotTell =>
      !rs.force && (!IsCommit(st.store, c.now) || !CompleteFrom(CommitGraph(st.store), c.now))
    case _ => st.lease.Some? && !spelledOut && !LeaseHolds(st, local, c)
  }

  /** What `rs` sends for the local name `n` has been planned. */
  ghost predicate Covered(st: Setting, rs: RefSpec, n: string, h: Hash, cmds: seq<Command>)
    requires rs.Valid() && Matches(rs.src, n)
  {
    var m := Move(st.remotes, Dst(rs, n), h);
    m.Some? ==> m.value in cmds
  }

  ghost predicate AllJustified(st: Setting, rs: RefSpec, cmds: seq<Command>, cmds': seq<Command>) {
    cmds <= cmds' && forall i :: |cmds| <= i < |cmds'| ==> Justified(st, rs, cmds'[i])
  }

  /** One value, checked and planned: `addObject` and `addReferenceIfRefSpecMatches`. */
  method AddMove(st: Setting, rs: RefSpec, n: string, h: Hash, spelledOut: bool, cmds: seq<Command>)
    returns (r: Plan, cmds': seq<Command>)
    requires Sends(st, rs, n, h, spelledOut)
    ensures AllJustified(st, rs, cmds, cmds')
    ensures r.Planned? ==> Covered(st, rs, n, h, cmds')
    ensures r.Refused? ==> Refusable(st, rs, r.error)
  {
    hide Reaches, CompleteFrom, Sends, LeaseHolds;
    SendsMatch(st, rs, n, h, spelledOut);
    var m := Move(st.remotes, Dst(rs, n), h);
    if m.None? {
      return Planned, cmds;
    }
    r := Planned;
    if st.lease.Some? && !spelledOut {
      r := CheckForceWithLease(st, n, m.value);
    } else if !rs.force {
      r := CheckFastForwardUpdate(st, m.value);
    }
    if r.Refused? {
      assert Blocked(st, rs, n, spelledOut, m.value, r.error);
      return r, cmds;
    }
    assert Allowed(st, rs, n, spelledOut, m.value);
    assert Justified(st, rs, m.value);
    return r, cmds + [m.value];
  }

  lemma SendsMatch(st: Setting, rs: RefSpec, n: string, h: Hash, spelledOut: bool)
    requires Sends(st, rs, n, h, spelledOut)
    ensures rs.Valid() && Matches(rs.src, n)
  {
  }

  lemma LastStays(l: seq<Reference>, r: Reference, n: string, v: RefValue)
    requires LastValue(l, n, false, v) && r.name != n
    ensures LastValue(l + [r], n, false, v)
  {
    var i :| 0 <= i < |l| && l[i] == Reference(n, v) && forall j :: i < j < |l| ==> l[j].name != n;
    assert (l + [r])[i] == Reference(n, v);
  }

  lemma LastAdded(l: seq<Reference>, r: Reference)
    ensures LastValue(l + [r], r.name, false, r.value)
  {
    assert (l + [r])[|l|] == Reference(r.name, r.value);
  }

  /** The dictionary of local references: of several with one name, the last. */
  method BuildDict(locals: seq<Reference>) returns (dict: Refs)
    ensures forall n :: n in dict ==> LastValue(locals, n, false, dict[n])
    ensures forall i :: 0 <= i < |locals| ==> locals[i].name in dict
  {
    hide LastValue;
    dict := map[];
    for k := 0 to |locals|
      invariant forall n :: n in dict ==> LastValue(locals[..k], n, false, dict[n])
      invariant forall i :: 0 <= i < k ==> locals[i].name in dict
    {
      assert locals[..k + 1] == locals[..k] + [locals[k]];
      forall n | n in dict && n != locals[k].name ensures LastValue(locals[..k + 1], n, false, dict[n]) {
        LastStays(locals[..k], locals[k], n, dict[n]);
      }
      LastAdded(locals[..k], locals[k]);
      dict := dict[locals[k].name := locals[k].value];
    }
    assert locals[..|locals|] == locals;
  }

  lemma {:induction false} LastUnique(locals: seq<Reference>, n: string, v: RefValue, w: RefValue)
    requires LastValue(locals, n, false, v) && LastValue(locals, n, false, w)
    ensures v == w
  {
    var i :| 0 <= i < |locals| && locals[i] == Reference(n, v) && forall j :: i < j < |locals| ==> locals[j].name != n;
    var k :| 0 <= k < |locals| && locals[k] == Reference(n, w) && forall j :: k < j < |locals| ==> locals[j].name != n;
    assert i == k;
  }

  /** `addOrUpdateReferences`: plans exactly the moves of what the refspec sends. */
  method AddOrUpdateReferences(st: Setting, rs: RefSpec, dict: Refs, cmds: seq<Command>)
    returns (r: Plan, cmds': seq<Command>)
    requires rs.Valid()
    requires forall n :: n in dict ==> LastValue(st.locals, n, false, dict[n])
    requires forall i :: 0 <= i < |st.locals| ==> st.locals[i].name in dict
    ensures AllJustified(st, rs, cmds, cmds')
    ensures r.Planned? ==> forall n, h, spelledOut :: Sends(st, rs, n, h, spelledOut) ==> Covered(st, rs, n, h, cmds')
    ensures r.Refused? ==> Refusable(st, rs, r.error)
  {
    hide Refusable, Justified, Covered, Move;
    if !rs.IsWildcard() {
      var src := rs.src.name;
      if src !in dict {
        var h := st.spelled(src);
        if h in st.store {
          r, cmds' := AddMove(st, rs, src, h, true, cmds);
          assert forall n, k, so :: Sends(st, rs, n, k, so) ==> n == src && k == h;
          return;
        }
        assert forall n, k, so :: !Sends(st, rs, n, k, so);
        return Planned, cmds;
      }
      if dict[src].SymbolicRef? {
        NothingSent(st, rs, dict[src]);
        return Planned, cmds;
      }
      r, cmds' := AddMove(st, rs, src, dict[src].hash, false, cmds);
      OneSent(st, rs, dict[src].hash);
      return;
    }
    r, cmds' := AddMatching(st, rs, cmds);
  }

  lemma NothingSent(st: Setting, rs: RefSpec, v: RefValue)
    requires rs.Valid() && !rs.IsWildcard() && LastValue(st.locals, rs.src.name, false, v) && v.SymbolicRef?
    ensures forall n, h, so :: !Sends(st, rs, n, h, so)
  {
    forall n, h, so | Sends(st, rs, n, h, so) ensures false {
      if !so {
        LastUnique(st.locals, n, v, HashRef(h));
      }
    }
  }

  lemma OneSent(st: Setting, rs: RefSpec, g: Hash)
    requires rs.Valid() && !rs.IsWildcard() && LastValue(st.locals, rs.src.name, false, HashRef(g))
    ensures forall n, h, so :: Sends(st, rs, n, h, so) ==> n == rs.src.name && h == g
  {
    forall n, h, so | Sends(st, rs, n, h, so) ensures n == rs.src.name && h == g {
      if !so {
        LastUnique(st.locals, n, HashRef(g), HashRef(h));
      }
    }
  }

  /** The loop of `addOrUpdateReferences` for a wildcard. */
  method AddMatching(st: Setting, rs: RefSpec, cmds: seq<Command>) returns (r: Plan, cmds': seq<Command>)
    requires rs.Valid() && rs.IsWildcard()
    ensures AllJustified(st, rs, cmds, cmds')
    ensures r.Planned? ==> forall n, h, spelledOut :: Sends(st, rs, n, h, spelledOut) ==> Covered(st, rs, n, h, cmds')
    ensures r.Refused? ==> Refusable(st, rs, r.error)
  {
    hide Refusable, Justified, Move;
    cmds' := cmds;
    for i := 0 to |st.locals|
      invariant AllJustified(st, rs, cmds, cmds')
      invariant forall j :: 0 <= j < i && st.locals[j].value.HashRef? && Matches(rs.src, st.locals[j].name) ==>
                  Covered(st, rs, st.locals[j].name, st.locals[j].value.hash, cmds')
    {
      var ref := st.locals[i];
      if ref.value.SymbolicRef? || !Matches(rs.src, ref.name) {
        continue;
      }
      var h := ref.value.hash;
      assert st.locals[i] == Reference(ref.name, HashRef(h));
      assert LastValue(st.locals, ref.name, true, HashRef(h));
      r, cmds' := AddMove(st, rs, ref.name, h, false, cmds');
      if r.Refused? {
        return;
      }
    }
    r := Planned;
  }

  /** What a refspec deletes: the one reference it names, or, pruning, each one without a
      local counterpart. */
  ghost predicate Deletes(st: Setting, rs: RefSpec, prune: bool, c: Command) {
    && rs.Valid() && c.name in st.remotes && st.remotes[c.name] == HashRef(c.was) && c.now == ZERO_HASH
    && if prune then
      Matches(rs.dst, c.name) && !IsLocal(st, Dst(Reverse(rs), c.name))
    else
      !rs.IsWildcard() && rs.dst.name == c.name
  }

  ghost predicate IsLocal(st: Setting, n: string) {
    exists i :: 0 <= i < |st.locals| && st.locals[i].name == n
  }

  /** `deleteReferences`. */
  method DeleteReferences(st: Setting, rs: RefSpec, dict: Refs, cmds: seq<Command>, prune: bool)
    returns (cmds': seq<Command>)
    requires rs.Valid() && (prune || !rs.IsWildcard())
    requires forall n :: n in dict <==> IsLocal(st, n)
    ensures cmds <= cmds' && forall i :: |cmds| <= i < |cmds'| ==> Deletes(st, rs, prune, cmds'[i])
    ensures forall c :: Deletes(st, rs, prune, c) ==> c in cmds'
  {
    hide IsLocal;
    cmds' := cmds;
    var rest := st.remotes.Keys;
    while rest != {}
      invariant rest <= st.remotes.Keys
      invariant cmds <= cmds' && forall i :: |cmds| <= i < |cmds'| ==> Deletes(st, rs, prune, cmds'[i])
      invariant forall c: Command :: c.name !in rest && Deletes(st, rs, prune, c) ==> c in cmds'
      decreases rest
    {
      var n :| n in rest;
      rest := rest - {n};
      if st.remotes[n].SymbolicRef? {
        continue;
      }
      if prune {
        var back := Reverse(rs);
        if !Matches(back.src, n) {
          continue;
        }
        if Dst(back, n) in dict {
          continue;
        }
      } else if rs.dst.name != n {
        continue;
      }
      cmds' := cmds' + [Command(n, st.remotes[n].hash, ZERO_HASH)];
    }
  }

  /** A command of the plan for one refspec. */
  ghost predicate PlannedBy(st: Setting, rs: RefSpec, prune: bool, c: Command) {
    if rs.IsDelete() then Deletes(st, rs, false, c)
    else Justified(st, rs, c) || (prune && Deletes(st, rs, true, c))
  }

  /** Everything one refspec asks for is planned. */
  ghost predicate AllPlanned(st: Setting, rs: RefSpec, prune: bool, cmds: seq<Command>)
    requires rs.Valid()
  {
    if rs.IsDelete() then forall c :: Deletes(st, rs, false, c) ==> c in cmds
    else
      (forall n, h, spelledOut :: Sends(st, rs, n, h, spelledOut) ==> Covered(st, rs, n, h, cmds))
      && (prune ==> forall c :: Deletes(st, rs, true, c) ==> c in cmds)
  }

  /** `addReferencesToUpdate`: the commands of a push, each one asked for by a refspec and
      allowed, and everything the refspecs ask for. */
  method AddReferencesToUpdate(st: Setting, specs: seq<RefSpec>, prune: bool) returns (r: Plan, cmds: seq<Command>)
    requires forall i :: 0 <= i < |specs| ==> specs[i].Valid()
    ensures forall c :: c in cmds ==> exists i :: 0 <= i < |specs| && PlannedBy(st, specs[i], prune, c)
    ensures r.Planned? ==> forall i :: 0 <= i < |specs| ==> AllPlanned(st, specs[i], prune, cmds)
    ensures r.Refused? ==> exists i :: 0 <= i < |specs| && !specs[i].IsDelete() && Refusable(st, specs[i], r.error)
    ensures st.lease.None? && (forall i :: 0 <= i < |specs| ==> !specs[i].force) ==>
              forall c :: c in cmds && c.now != ZERO_HASH ==> KeepsHistory(st, c)
    ensures st.lease.Some? && (forall i :: 0 <= i < |specs| ==> specs[i].IsWildcard()) ==> LeaseKept(st.lease.value, cmds)
  {
    hide Justified, Deletes, Refusable, Sends, LastValue, KeepsHistory, LeaseKept;
    var dict := BuildDict(st.locals);
    DictIsLocal(st, dict);
    cmds := [];
    for i := 0 to |specs|
      invariant forall c :: c in cmds ==> exists i :: 0 <= i < |specs| && PlannedBy(st, specs[i], prune, c)
      invariant forall j :: 0 <= j < i ==> AllPlanned(st, specs[j], prune, cmds)
    {
      var rs := specs[i];
      ghost var before := cmds;
      if rs.IsDelete() {
        cmds := DeleteReferences(st, rs, dict, cmds, false);
      } else {
        r, cmds := AddOrUpdateReferences(st, rs, dict, cmds);
        if r.Refused? {
          MorePlanned(st, specs, prune, i, before, cmds);
          UnforcedKeep(st, specs, prune, cmds);
          LeasedKeep(st, specs, prune, cmds);
          return;
        }
        ghost var mid := cmds;
        if prune {
          cmds := DeleteReferences(st, rs, dict, cmds, true);
          StillCovered(st, rs, mid, cmds);
        }
      }
      MorePlanned(st, specs, prune, i, before, cmds);
      forall j | 0 <= j < i ensures AllPlanned(st, specs[j], prune, cmds) {
        StillPlanned(st, specs[j], prune, before, cmds);
      }
    }
    UnforcedKeep(st, specs, prune, cmds);
    LeasedKeep(st, specs, prune, cmds);
    r := Planned;
  }

  /** Without force and without a lease, no planned move of a reference loses history. */
  lemma UnforcedKeep(st: Setting, specs: seq<RefSpec>, prune: bool, cmds: seq<Command>)
    requires forall c :: c in cmds ==> exists i :: 0 <= i < |specs| && PlannedBy(st, specs[i], prune, c)
    ensures st.lease.None? && (forall i :: 0 <= i < |specs| ==> !specs[i].force) ==>
              forall c :: c in cmds && c.now != ZERO_HASH ==> KeepsHistory(st, c)
  {
    hide KeepsHistory, Sends, Move;
  }

  /** With a lease on a hash, every reference that it is for is moved from that hash. */
  ghost predicate LeaseKept(lease: Lease, cmds: seq<Command>) {
    forall c | c in cmds && c.now != ZERO_HASH && lease.hash != ZERO_HASH && lease.refName in {"", c.name} ::
      c.was == lease.hash
  }

  lemma LeasedKeep(st: Setting, specs: seq<RefSpec>, prune: bool, cmds: seq<Command>)
    requires forall c :: c in cmds ==> exists i :: 0 <= i < |specs| && PlannedBy(st, specs[i], prune, c)
    ensures st.lease.Some? && (forall i :: 0 <= i < |specs| ==> specs[i].IsWildcard()) ==> LeaseKept(st.lease.value, cmds)
  {
    hide Move;
  }

  lemma DictIsLocal(st: Setting, dict: Refs)
    requires forall n :: n in dict ==> LastValue(st.locals, n, false, dict[n])
    requires forall i :: 0 <= i < |st.locals| ==> st.locals[i].name in dict
    ensures forall n :: n in dict <==> IsLocal(st, n)
  {
  }

  lemma MorePlanned(st: Setting, specs: seq<RefSpec>, prune: bool, k: nat, before: seq<Command>, after: seq<Command>)
    requires k < |specs| && before <= after
    requires forall c :: c in before ==> exists i :: 0 <= i < |specs| && PlannedBy(st, specs[i], prune, c)
    requires forall i :: |before| <= i < |after| ==> PlannedBy(st, specs[k], prune, after[i])
    ensures forall c :: c in after ==> exists i :: 0 <= i < |specs| && PlannedBy(st, specs[i], prune, c)
  {
    hide PlannedBy;
    forall c | c in after ensures exists i :: 0 <= i < |specs| && PlannedBy(st, specs[i], prune, c) {
      var i :| 0 <= i < |after| && after[i] == c;
      if i < |before| {
        assert before[i] in before;
      } else {
        assert PlannedBy(st, specs[k], prune, c);
      }
    }
  }

  lemma StillCovered(st: Setting, rs: RefSpec, before: seq<Command>, after: seq<Command>)
    requires rs.Valid() && before <= after
    requires forall n, h, so :: Sends(st, rs, n, h, so) ==> Covered(st, rs, n, h, before)
    ensures forall n, h, so :: Sends(st, rs, n, h, so) ==> Covered(st, rs, n, h, after)
  {
    hide Move;
    forall n, h, so | Sends(st, rs, n, h, so) ensures Covered(st, rs, n, h, after) {
      assert Covered(st, rs, n, h, before);
    }
  }

  lemma StillPlanned(st: Setting, rs: RefSpec, prune: bool, before: seq<Command>, after: seq<Command>)
    requires rs.Valid() && before <= after && AllPlanned(st, rs, prune, before)
    ensures AllPlanned(st, rs, prune, after)
  {
    hide Sends, Deletes, Move;
    assert forall c :: c in before ==> c in after;
    if !rs.IsDelete() {
      StillCovered(st, rs, before, after);
    }
  }

  /** A remote reference with a local counterpart is pruned if and only if the refspec forces
      updates, save for an odd local name. */
  lemma PruneDeletesCounterpart(st: Setting, rs: RefSpec, n: string, h: Hash)
    requires rs.Valid() && Matches(rs.src, n) && IsLocal(st, n)
    requires Dst(rs, n) in st.remotes && st.remotes[Dst(rs, n)] == HashRef(h)
    ensures Deletes(st, rs, true, Command(Dst(rs, n), h, ZERO_HASH)) <==> rs.force && !IsLocal(st, "+" + n)
  {
    ReverseDst(rs, n);
  }

  /** A push of all branches with force that prunes: the plan deletes a branch that both sides
      have. */
  method PruneExample() returns (r: Plan, cmds: seq<Command>)
    ensures r.Planned? && Command("refs/heads/a", 1, ZERO_HASH) in cmds
  {
    var rs := RefSpec(true, Glob("refs/heads/", ""), Glob("refs/heads/", ""));
    var n, h := "refs/heads/a", 1;
    var st := Setting(map[1 := Commit(2, [])], [Reference(n, HashRef(h))], map[n := HashRef(h)], _ => ZERO_HASH, None, map[]);
    assert Matches(rs.src, n) && Dst(rs, n) == n;
    assert st.locals[0].name == n;
    assert !IsLocal(st, "+" + n);
    PruneDeletesCounterpart(st, rs, n, h);
    r, cmds := AddReferencesToUpdate(st, [rs], true);
    assert AllPlanned(st, [rs][0], true, cmds);
  }

  // --- Updating references after a fetch -----------------------------------------------------

  const MAX_RESOLVE_RECURSION := 1024

  predicate IsTag(n: string) {
    "refs/tags/" <= n
  }

  /** Names outside `refs/` are branches. */
  function LocalName(n: string): string {
    if "refs/" <= n then n else "refs/heads/" + n
  }

  /** Full names stay, all others become branches; tags are the names below `refs/tags/`. */
  lemma WhereNamesGo(x: string)
    ensures LocalName("refs/heads/" + x) == "refs/heads/" + x && !IsTag("refs/heads/" + x)
    ensures LocalName("refs/remotes/" + x) == "refs/remotes/" + x && !IsTag("refs/remotes/" + x)
    ensures LocalName("refs/tags/" + x) == "refs/tags/" + x && IsTag("refs/tags/" + x)
    ensures LocalName("refs/" + x) == "refs/" + x
    ensures !("refs/" <= x) ==> LocalName(x) == "refs/heads/" + x
    ensures IsTag(x) ==> x == "refs/tags/" + x[10..]
  {
    assert ("refs/heads/" + x)[..5] == "refs/" && ("refs/heads/" + x)[5] == 'h';
    assert ("refs/remotes/" + x)[..5] == "refs/" && ("refs/remotes/" + x)[5] == 'r';
    assert ("refs/tags/" + x)[..5] == "refs/" && ("refs/tags/" + x)[..10] == "refs/tags/";
    assert IsTag(x) ==> x == x[..10] + x[10..];
  }

  /** `ResolveReference`: the name and hash that a chain of symbolic references leads to. */
  function Resolve(refs: Refs, n: string, recursion: nat := 0): Option<(string, Hash)>
    decreases MAX_RESOLVE_RECURSION + 1 - recursion
  {
    if n !in refs then None
    else if refs[n].HashRef? then Some((n, refs[n].hash))
    else if recursion > MAX_RESOLVE_RECURSION then None
    else Resolve(refs, refs[n].target, recursion + 1)
  }

  /** A chain of symbolic references. */
  ghost predicate Chain(refs: Refs, names: seq<string>) {
    names != [] && forall i :: 0 <= i < |names| - 1 ==> names[i] in refs && refs[names[i]] == SymbolicRef(names[i + 1])
  }

  /** A chain that ends with a hash leads to it, unless it has more than 1025 links; one that ends
      with no reference leads nowhere. */
  lemma {:induction false} ResolveIs(refs: Refs, names: seq<string>)
    requires Chain(refs, names)
    ensures var last := names[|names| - 1];
            && (last !in refs ==> Resolve(refs, names[0]).None?)
            && forall h :: last in refs && refs[last] == HashRef(h) ==>
                 Resolve(refs, names[0]) == if |names| <= 1026 then Some((last, h)) else None
  {
    ResolveFrom(refs, names, 0);
  }

  lemma {:induction false} ResolveFrom(refs: Refs, names: seq<string>, r: nat)
    requires Chain(refs, names) && r <= 1025
    ensures var last := names[|names| - 1];
            && (last !in refs ==> Resolve(refs, names[0], r).None?)
            && forall h :: last in refs && refs[last] == HashRef(h) ==>
                 Resolve(refs, names[0], r) == if r + |names| <= 1026 then Some((last, h)) else None
    decreases |names|
  {
    if |names| > 1 {
      assert names[0] in refs && refs[names[0]] == SymbolicRef(names[1]);
      if r < 1025 {
        var rest := names[1..];
        assert rest[|rest| - 1] == names[|names| - 1];
        ResolveFrom(refs, rest, r + 1);
      }
    }
  }

  /** Every hash reference that is no tag, and that is not exempt, still has its old value in
      its history. */
  ghost predicate NothingLost(s: Store, before: Refs, after: Refs, exempt: set<string>) {
    forall n :: n in before && before[n].HashRef? && !IsTag(n) && n !in exempt ==>
      n in after && after[n].HashRef? && Reaches(CommitGraph(s), after[n].hash, before[n].hash)
  }

  lemma NothingLostTrans(s: Store, a: Refs, b: Refs, c: Refs, exempt: set<string>)
    requires NothingLost(s, a, b, exempt) && NothingLost(s, b, c, exempt)
    ensures NothingLost(s, a, c, exempt)
  {
    hide Reaches;
    forall n | n in a && a[n].HashRef? && !IsTag(n) && n !in exempt
      ensures n in c && c[n].HashRef? && Reaches(CommitGraph(s), c[n].hash, a[n].hash)
    {
      ReachesTrans(CommitGraph(s), c[n].hash, b[n].hash, a[n].hash);
    }
  }

  lemma NothingLostSame(s: Store, refs: Refs, exempt: set<string>)
    ensures NothingLost(s, refs, refs, exempt)
  {
    forall n | n in refs && refs[n].HashRef? ensures Reaches(CommitGraph(s), refs[n].hash, refs[n].hash) {
      ReachesSelf(CommitGraph(s), refs[n].hash);
    }
  }

  // --- What a fetch writes --------------------------------------------------------------------

  /** A fetched hash reference: the local name it goes to, its value, and whether it may replace
      any other value. */
  datatype FetchMove = FetchMove(name: string, hash: Hash, forced: bool)

  ghost predicate MatchedLists(specs: seq<RefSpec>, lists: seq<seq<Reference>>) {
    && |lists| == |specs|
    && (forall i :: 0 <= i < |specs| ==> specs[i].Valid())
    && forall i, j :: 0 <= i < |specs| && 0 <= j < |lists[i]| && specs[i].IsWildcard() ==>
      Matches(specs[i].src, lists[i][j].name)
  }

  ghost function MoveOf(spec: RefSpec, ref: Reference, force: bool): FetchMove
    requires spec.Valid() && (spec.IsWildcard() ==> Matches(spec.src, ref.name)) && ref.value.HashRef?
  {
    FetchMove(LocalName(Dst(spec, ref.name)), ref.value.hash, force || spec.force)
  }

  /** The usual refspec of a fetch takes every branch to the remote-tracking one, by force. */
  lemma BranchesGo(x: string, h: Hash, force: bool)
    ensures var spec := RefSpec(true, Glob("refs/heads/", ""), Glob("refs/remotes/origin/", ""));
            var ref := Reference("refs/heads/" + x, HashRef(h));
            && Matches(spec.src, ref.name)
            && MoveOf(spec, ref, force) == FetchMove("refs/remotes/origin/" + x, h, true)
  {
    var spec := RefSpec(true, Glob("refs/heads/", ""), Glob("refs/remotes/origin/", ""));
    assert "refs/heads/" + x == spec.src.prefix + x + spec.src.suffix;
    GlobIs(spec, "refs/heads/" + x);
    WhereNamesGo("origin/" + x);
    assert "refs/remotes/origin/" + x == "refs/remotes/" + ("origin/" + x);
    assert "refs/remotes/origin/" + x == spec.dst.prefix + x + spec.dst.suffix;
  }

  /** The moves of the first `i` lists and of the first `j` references of the next one. */
  ghost function MovesTo(specs: seq<RefSpec>, lists: seq<seq<Reference>>, force: bool, i: nat, j: nat): seq<FetchMove>
    requires MatchedLists(specs, lists) && i <= |specs| && (if i < |specs| then j <= |lists[i]| else j == 0)
    decreases i, j
  {
    if j > 0 then
      MovesTo(specs, lists, force, i, j - 1)
      + if lists[i][j - 1].value.HashRef? then [MoveOf(specs[i], lists[i][j - 1], force)] else []
    else if i == 0 then []
    else MovesTo(specs, lists, force, i - 1, |lists[i - 1]|)
  }

  /** The move would lose history: its name leads to a hash that is no tag's, and the new value
      does not reach it. */
  ghost predicate Refuses(s: Store, refs: Refs, m: FetchMove) {
    var had := Resolve(refs, m.name);
    had.Some? && !IsTag(had.value.0) && !m.forced && !Reaches(CommitGraph(s), m.hash, had.value.1)
  }

  /** Whether it would cannot be told. */
  ghost predicate Unclear(s: Store, refs: Refs, m: FetchMove) {
    var had := Resolve(refs, m.name);
    && had.Some? && !IsTag(had.value.0) && !m.forced
    && (!IsCommit(s, m.hash) || !CompleteFrom(CommitGraph(s), m.hash))
  }

  /** The name itself is symbolic, so that what it leads to is not what it holds. */
  ghost predicate Indirect(refs: Refs, m: FetchMove) {
    && m.name in refs && refs[m.name].SymbolicRef?
    && Resolve(refs, m.name).Some? && Resolve(refs, m.name).value.1 != ZERO_HASH
  }

  ghost function After(s: Store, refs: Refs, m: FetchMove): Refs {
    if Refuses(s, refs, m) then refs else refs[m.name := HashRef(m.hash)]
  }

  /** The references after some moves: those that would lose history are passed over. */
  ghost function Run(s: Store, refs: Refs, moves: seq<FetchMove>): Refs {
    if moves == [] then refs else After(s, Run(s, refs, moves[..|moves| - 1]), moves[|moves| - 1])
  }

  ghost predicate RefusedAt(s: Store, refs: Refs, moves: seq<FetchMove>, k: nat)
    requires k < |moves|
  {
    Refuses(s, Run(s, refs, moves[..k]), moves[k])
  }

  ghost predicate ChangedAt(s: Store, refs: Refs, moves: seq<FetchMove>, k: nat)
    requires k < |moves|
  {
    After(s, Run(s, refs, moves[..k]), moves[k]) != Run(s, refs, moves[..k])
  }

  ghost predicate SomeRefused(s: Store, refs: Refs, moves: seq<FetchMove>) {
    exists k :: 0 <= k < |moves| && RefusedAt(s, refs, moves, k)
  }

  ghost predicate SomeChanged(s: Store, refs: Refs, moves: seq<FetchMove>) {
    exists k :: 0 <= k < |moves| && ChangedAt(s, refs, moves, k)
  }

  lemma {:induction false} RunPush(s: Store, refs: Refs, moves: seq<FetchMove>, m: FetchMove)
    ensures var mid := Run(s, refs, moves);
            && Run(s, refs, moves + [m]) == After(s, mid, m)
            && (SomeRefused(s, refs, moves + [m]) <==> SomeRefused(s, refs, moves) || Refuses(s, mid, m))
            && (SomeChanged(s, refs, moves + [m]) <==> SomeChanged(s, refs, moves) || After(s, mid, m) != mid)
  {
    hide Refuses, After, Run, RefusedAt, ChangedAt;
    var more, n := moves + [m], |moves|;
    forall k | 0 <= k <= n
      ensures k < n ==> (RefusedAt(s, refs, more, k) <==> RefusedAt(s, refs, moves, k))
      ensures k < n ==> (ChangedAt(s, refs, more, k) <==> ChangedAt(s, refs, moves, k))
    {
      OneMoreMove(s, refs, moves, m, k);
    }
    OneMoreMove(s, refs, moves, m, n);
    if SomeRefused(s, refs, moves) {
      var k :| 0 <= k < n && RefusedAt(s, refs, moves, k);
      assert RefusedAt(s, refs, more, k);
    }
    if SomeChanged(s, refs, moves) {
      var k :| 0 <= k < n && ChangedAt(s, refs, moves, k);
      assert ChangedAt(s, refs, more, k);
    }
  }

  /** A move at the end does not change what the others do. */
  lemma {:induction false} OneMoreMove(s: Store, refs: Refs, moves: seq<FetchMove>, m: FetchMove, k: nat)
    requires k <= |moves|
    ensures var more, mid := moves + [m], Run(s, refs, moves);
            if k < |moves| then
              && (RefusedAt(s, refs, more, k) <==> RefusedAt(s, refs, moves, k))
              && (ChangedAt(s, refs, more, k) <==> ChangedAt(s, refs, moves, k))
            else
              && Run(s, refs, more) == After(s, mid, m) && (RefusedAt(s, refs, more, k) <==> Refuses(s, mid, m))
              && (ChangedAt(s, refs, more, k) <==> After(s, mid, m) != mid)
  {
    hide Refuses, After;
    assert (moves + [m])[..k] == moves[..k] && moves[..|moves|] == moves;
  }

  /** Names that forced moves write. */
  ghost function ForcedNames(moves: seq<FetchMove>): set<string> {
    set i | 0 <= i < |moves| && moves[i].forced :: moves[i].name
  }

  /** No unforced reference loses history, whatever is refused. */
  lemma {:induction false} RunLosesNothing(s: Store, refs: Refs, moves: seq<FetchMove>)
    ensures NothingLost(s, refs, Run(s, refs, moves), ForcedNames(moves))
  {
    hide Reaches, NothingLost;
    if moves == [] {
      NothingLostSame(s, refs, ForcedNames(moves));
    } else {
      var before, m := moves[..|moves| - 1], moves[|moves| - 1];
      var mid := Run(s, refs, before);
      RunLosesNothing(s, refs, before);
      assert ForcedNames(before) <= ForcedNames(moves) by {
        forall n | n in ForcedNames(before) ensures n in ForcedNames(moves) {
          var i :| 0 <= i < |before| && before[i].forced && before[i].name == n;
          assert moves[i] == before[i];
        }
      }
      if m.forced {
        assert m.name in ForcedNames(moves);
      }
      LostMore(s, refs, mid, ForcedNames(before), ForcedNames(moves));
      StepLosesNothing(s, mid, m, ForcedNames(moves));
      NothingLostTrans(s, refs, mid, After(s, mid, m), ForcedNames(moves));
    }
  }

  lemma LostMore(s: Store, a: Refs, b: Refs, exempt: set<string>, more: set<string>)
    requires NothingLost(s, a, b, exempt) && exempt <= more
    ensures NothingLost(s, a, b, more)
  {
    hide Reaches;
  }

  lemma StepLosesNothing(s: Store, refs: Refs, m: FetchMove, exempt: set<string>)
    requires m.forced ==> m.name in exempt
    ensures NothingLost(s, refs, After(s, refs, m), exempt)
  {
    hide Reaches;
    NothingLostSame(s, refs, exempt);
  }

  /** Move `k` is the last one to its name that is not refused. */
  ghost predicate Decides(s: Store, refs: Refs, moves: seq<FetchMove>, k: nat, n: string) {
    && k < |moves| && moves[k].name == n && !RefusedAt(s, refs, moves, k)
    && forall j :: k < j < |moves| && moves[j].name == n ==> RefusedAt(s, refs, moves, j)
  }

  lemma RefusedBefore(s: Store, refs: Refs, moves: seq<FetchMove>, n: nat, k: nat)
    requires k < n <= |moves|
    ensures RefusedAt(s, refs, moves[..n], k) <==> RefusedAt(s, refs, moves, k)
  {
    hide Refuses, Run;
    assert moves[..n][..k] == moves[..k];
  }

  /** A reference ends up with the last value that was not refused. */
  lemma {:induction false} RunDecided(s: Store, refs: Refs, moves: seq<FetchMove>, k: nat, n: string)
    requires Decides(s, refs, moves, k, n)
    ensures n in Run(s, refs, moves) && Run(s, refs, moves)[n] == HashRef(moves[k].hash)
  {
    hide Refuses;
    var last := |moves| - 1;
    if k < last {
      forall j | k <= j < last ensures RefusedAt(s, refs, moves[..last], j) <==> RefusedAt(s, refs, moves, j) {
        RefusedBefore(s, refs, moves, last, j);
      }
      hide RefusedAt, Run;
      RunDecided(s, refs, moves[..last], k, n);
      LastMove(s, refs, moves);
    }
  }

  /** The last move changes its own name, and only if it is not refused. */
  lemma {:induction false} LastMove(s: Store, refs: Refs, moves: seq<FetchMove>)
    requires moves != []
    ensures var last := |moves| - 1;
            forall n :: n != moves[last].name || RefusedAt(s, refs, moves, last) ==>
              (n in Run(s, refs, moves) <==> n in Run(s, refs, moves[..last]))
              && (n in Run(s, refs, moves) ==> Run(s, refs, moves)[n] == Run(s, refs, moves[..last])[n])
  {
    hide Refuses;
  }

  /** A reference that every move to it is refused keeps its value. */
  lemma {:induction false} RunRefused(s: Store, refs: Refs, moves: seq<FetchMove>, n: string)
    requires forall k :: 0 <= k < |moves| && moves[k].name == n ==> RefusedAt(s, refs, moves, k)
    ensures n in Run(s, refs, moves) <==> n in refs
    ensures n in refs ==> Run(s, refs, moves)[n] == refs[n]
  {
    hide RefusedAt;
    if moves != [] {
      var last := |moves| - 1;
      forall k | 0 <= k < last && moves[k].name == n ensures RefusedAt(s, refs, moves[..last], k) {
        RefusedBefore(s, refs, moves, last, k);
      }
      hide Run;
      RunRefused(s, refs, moves[..last], n);
      LastMove(s, refs, moves);
    }
  }

  /** The tags that come along, with their values. */
  ghost function WithTags(s: Store, refs: Refs, tags: Refs): Refs {
    map n | n in refs.Keys + tags.Keys && (n in refs || ComesAlong(s, tags, n)) ::
      if ComesAlong(s, tags, n) then tags[n] else refs[n]
  }

  ghost predicate ComesAlong(s: Store, tags: Refs, n: string) {
    n in tags && IsTag(n) && tags[n].HashRef? && tags[n].hash in s
  }

  datatype UpdateResult = Updated | Unchanged | ForceNeeded | CannotTellHistory | ReferenceChanged

  /** What a finished update reports: the need for force exactly if something was refused and
      tags are not turned off, otherwise whether anything was written. */
  ghost predicate Reports(s: Store, refs: Refs, moves: seq<FetchMove>, tags: Option<Refs>, r: UpdateResult) {
    var mid := Run(s, refs, moves);
    if tags.Some? && SomeRefused(s, refs, moves) then r.ForceNeeded?
    else if SomeChanged(s, refs, moves) || (tags.Some? && WithTags(s, mid, tags.value) != mid) then r.Updated?
    else r.Unchanged?
  }

  /** An update that was cut short after `k` moves. */
  ghost predicate CutShort(s: Store, refs: Refs, moves: seq<FetchMove>, after: Refs, r: UpdateResult, k: nat) {
    && k < |moves| && after == Run(s, refs, moves[..k])
    && if r.CannotTellHistory? then Unclear(s, after, moves[k]) else r.ReferenceChanged? && Indirect(after, moves[k])
  }

  /** A reference store in memory. */
  class RefStorage {
    const store: Store
    var refs: Refs

    constructor (store: Store, refs: Refs)
      ensures this.store == store && this.refs == refs
    {
      this.store, this.refs := store, refs;
    }

    /** `checkAndUpdateReferenceStorerIfNeeded`: sets the reference unless it has it already,
        or has changed since its value `expected` was read. */
    method CheckAndUpdate(n: string, h: Hash, expected: Option<Hash>) returns (ok: bool, updated: bool)
      modifies this
      ensures ok <==> (n !in old(refs) || old(refs)[n] == HashRef(h) || expected.None?
                       || expected.value == (if old(refs)[n].HashRef? then old(refs)[n].hash else ZERO_HASH))
      ensures refs == if ok then old(refs)[n := HashRef(h)] else old(refs)
      ensures updated <==> refs != old(refs)
    {
      if n in refs && refs[n] == HashRef(h) {
        assert refs == refs[n := HashRef(h)];
        return true, false;
      }
      if expected.Some? && n in refs {
        var stored := if refs[n].HashRef? then refs[n].hash else ZERO_HASH;
        if stored != expected.value {
          return false, false;
        }
      }
      refs := refs[n := HashRef(h)];
      return true, true;
    }

    /** One fetched reference. */
    method UpdateOne(spec: RefSpec, ref: Reference, force: bool) returns (r: UpdateResult)
      requires spec.Valid() && (spec.IsWildcard() ==> Matches(spec.src, ref.name)) && ref.value.HashRef?
      modifies this
      ensures var m := MoveOf(spec, ref, force);
              match r
              case ForceNeeded => Refuses(store, old(refs), m) && refs == old(refs)
              case CannotTellHistory => Unclear(store, old(refs), m) && refs == old(refs)
              case ReferenceChanged => Indirect(old(refs), m) && refs == old(refs)
              case _ =>
                && !Refuses(store, old(refs), m) && refs == After(store, old(refs), m)
                && (r.Updated? <==> refs != old(refs))
    {
      hide Reaches, ReachesUpTo, CompleteFrom;
      var n := LocalName(Dst(spec, ref.name));
      var h := ref.value.hash;
      var had := Resolve(refs, n);
      if had.Some? && !IsTag(had.value.0) && !force && !spec.force {
        var ff := IsFastForward(store, had.value.1, h, None);
        match ff {
          case Failed => return CannotTellHistory;
          case NotFastForward => return ForceNeeded;
          case FastForward =>
        }
      }
      var ok, updated := CheckAndUpdate(n, h, if had.Some? then Some(had.value.1) else None);
      if !ok {
        return ReferenceChanged;
      }
      return if updated then Updated else Unchanged;
    }

    /** `buildFetchedTags`: tags whose objects have come along. */
    method BuildFetchedTags(tags: Refs) returns (updated: bool)
      modifies this
      ensures refs == WithTags(store, old(refs), tags)
      ensures updated <==> refs != old(refs)
    {
      updated := false;
      var rest := tags.Keys;
      assert refs == WithTags(store, refs, map[]);
      while rest != {}
        invariant rest <= tags.Keys
        invariant refs == WithTags(store, old(refs), tags - rest)
        invariant updated <==> refs != old(refs)
        decreases rest
      {
        var n :| n in rest;
        ghost var before := tags - rest;
        rest := rest - {n};
        OneMoreTag(store, old(refs), tags, before, n, tags - rest);
        if !IsTag(n) || tags[n].SymbolicRef? || tags[n].hash !in store {
          continue;
        }
        var _, u := CheckAndUpdate(n, tags[n].hash, None);
        if u {
          updated := true;
        }
      }
      assert tags - {} == tags;
    }

    /** `updateLocalReferenceStorage`: runs the fetched references, and the tags if they are
        wanted, and reports. */
    method UpdateLocalReferenceStorage(specs: seq<RefSpec>, lists: seq<seq<Reference>>, fetched: Refs, remotes: Refs,
                                       noTags: bool, force: bool)
      returns (r: UpdateResult)
      requires MatchedLists(specs, lists)
      modifies this
      ensures var moves := MovesTo(specs, lists, force, |specs|, 0);
              var tags := TagsWanted(specs, fetched, remotes, noTags);
              if r.CannotTellHistory? || r.ReferenceChanged? then
                exists k :: CutShort(store, old(refs), moves, refs, r, k)
              else
                && Reports(store, old(refs), moves, tags, r)
                && var mid := Run(store, old(refs), moves);
                   refs == if tags.Some? then WithTags(store, mid, tags.value) else mid
      ensures NothingLost(store, old(refs), refs, ForcedNames(MovesTo(specs, lists, force, |specs|, 0)))
    {
      hide Run, SomeRefused, SomeChanged, WithTags, NothingLost, MovesTo, Unclear, Indirect;
      ghost var moves := MovesTo(specs, lists, force, |specs|, 0);
      var isWildcard, forceNeeded, updated := true, false, false;
      NoMoves(store, refs, specs, lists, force);
      for i := 0 to |specs|
        invariant isWildcard == forall j :: 0 <= j < i ==> specs[j].IsWildcard()
        invariant var done := MovesTo(specs, lists, force, i, 0);
                  && refs == Run(store, old(refs), done)
                  && (forceNeeded <==> SomeRefused(store, old(refs), done))
                  && (updated <==> SomeChanged(store, old(refs), done))
      {
        if !specs[i].IsWildcard() {
          isWildcard := false;
        }
        r, updated, forceNeeded := UpdateList(specs, lists, i, force, updated, forceNeeded, old(refs));
        if r.CannotTellHistory? || r.ReferenceChanged? {
          ghost var k :| CutShort(store, old(refs), moves, refs, r, k);
          CutLosesNothing(store, old(refs), moves, k);
          return;
        }
      }
      RunLosesNothing(store, old(refs), moves);
      if noTags {
        return if updated then Updated else Unchanged;
      }
      var tags := if isWildcard then remotes else fetched;
      ghost var mid := refs;
      var u := BuildFetchedTags(tags);
      TagsLoseNothing(store, mid, tags, ForcedNames(moves));
      NothingLostTrans(store, old(refs), mid, refs, ForcedNames(moves));
      if forceNeeded {
        return ForceNeeded;
      }
      return if updated || u then Updated else Unchanged;
    }

    /** The references of one refspec. */
    method UpdateList(specs: seq<RefSpec>, lists: seq<seq<Reference>>, i: nat, force: bool, updated: bool, needed: bool,
                      ghost start: Refs)
      returns (r: UpdateResult, updated': bool, needed': bool)
      requires MatchedLists(specs, lists) && i < |specs|
      requires var done := MovesTo(specs, lists, force, i, 0);
               && refs == Run(store, start, done)
               && (needed <==> SomeRefused(store, start, done)) && (updated <==> SomeChanged(store, start, done))
      modifies this
      ensures if r.CannotTellHistory? || r.ReferenceChanged? then
                exists k :: CutShort(store, start, MovesTo(specs, lists, force, |specs|, 0), refs, r, k)
              else
                var done := MovesTo(specs, lists, force, i + 1, 0);
                && refs == Run(store, start, done)
                && (needed' <==> SomeRefused(store, start, done)) && (updated' <==> SomeChanged(store, start, done))
    {
      hide Run, SomeRefused, SomeChanged, After, Refuses, Unclear, Indirect, MoveOf, CutShort, MovesTo;
      updated', needed' := updated, needed;
      r := Unchanged;
      for j := 0 to |lists[i]|
        invariant r.Unchanged?
        invariant var done := MovesTo(specs, lists, force, i, j);
                  && refs == Run(store, start, done)
                  && (needed' <==> SomeRefused(store, start, done)) && (updated' <==> SomeChanged(store, start, done))
      {
        var ref := lists[i][j];
        NextMove(specs, lists, force, i, j);
        if ref.value.SymbolicRef? {
          continue;
        }
        ghost var done, m := MovesTo(specs, lists, force, i, j), MoveOf(specs[i], ref, force);
        RunPush(store, start, done, m);
        RefusedSame(store, refs, m);
        var one := UpdateOne(specs[i], ref, force);
        if one.CannotTellHistory? || one.ReferenceChanged? {
          MovesPrefix(specs, lists, force, i, j + 1, |specs|);
          CutHere(store, start, MovesTo(specs, lists, force, |specs|, 0), done, m, one);
          return one, updated', needed';
        }
        if one.ForceNeeded? {
          needed' := true;
          continue;
        }
        if one.Updated? {
          updated' := true;
        }
      }
      NextList(specs, lists, force, i);
    }
  }

  ghost function TagsWanted(specs: seq<RefSpec>, fetched: Refs, remotes: Refs, noTags: bool): Option<Refs> {
    if noTags then None
    else if forall j :: 0 <= j < |specs| ==> specs[j].IsWildcard() then Some(remotes)
    else Some(fetched)
  }

  /** A tag of the remote whose object is there comes along if all refspecs have a wildcard; if one has
      none, a tag that was not fetched does not. */
  lemma TagsFollow(s: Store, refs: Refs, specs: seq<RefSpec>, fetched: Refs, remotes: Refs, x: string, h: Hash)
    requires h in s
    ensures var (n, tags) := ("refs/tags/" + x, TagsWanted(specs, fetched, remotes, false));
            && tags.Some?
            && ((forall i :: 0 <= i < |specs| ==> specs[i].src.Glob?) && n in remotes && remotes[n] == HashRef(h) ==>
                  n in WithTags(s, refs, tags.value) && WithTags(s, refs, tags.value)[n] == HashRef(h))
            && ((exists i :: 0 <= i < |specs| && specs[i].src.Exact? && specs[i].dst.Exact?) && n !in fetched ==>
                  if n in refs then n in WithTags(s, refs, tags.value) && WithTags(s, refs, tags.value)[n] == refs[n]
                  else n !in WithTags(s, refs, tags.value))
  {
    WhereNamesGo(x);
  }

  lemma OneMoreTag(s: Store, refs: Refs, tags: Refs, before: Refs, n: string, after: Refs)
    requires n in tags && n !in before && after == before[n := tags[n]]
    ensures WithTags(s, refs, after) ==
              if ComesAlong(s, tags, n) then WithTags(s, refs, before)[n := tags[n]] else WithTags(s, refs, before)
  {
  }

  lemma TagsLoseNothing(s: Store, refs: Refs, tags: Refs, exempt: set<string>)
    ensures NothingLost(s, refs, WithTags(s, refs, tags), exempt)
  {
    hide Reaches;
    NothingLostSame(s, refs, exempt);
  }

  lemma {:induction false} NoMoves(s: Store, refs: Refs, specs: seq<RefSpec>, lists: seq<seq<Reference>>, force: bool)
    requires MatchedLists(specs, lists)
    ensures MovesTo(specs, lists, force, 0, 0) == [] && Run(s, refs, []) == refs
    ensures !SomeRefused(s, refs, []) && !SomeChanged(s, refs, [])
  {
  }

  lemma {:induction false} NextMove(specs: seq<RefSpec>, lists: seq<seq<Reference>>, force: bool, i: nat, j: nat)
    requires MatchedLists(specs, lists) && i < |specs| && j < |lists[i]|
    ensures MovesTo(specs, lists, force, i, j + 1) ==
              if lists[i][j].value.HashRef? then MovesTo(specs, lists, force, i, j) + [MoveOf(specs[i], lists[i][j], force)]
              else MovesTo(specs, lists, force, i, j)
  {
  }

  lemma {:induction false} NextList(specs: seq<RefSpec>, lists: seq<seq<Reference>>, force: bool, i: nat)
    requires MatchedLists(specs, lists) && i < |specs|
    ensures MovesTo(specs, lists, force, i + 1, 0) == MovesTo(specs, lists, force, i, |lists[i]|)
  {
  }

  lemma {:induction false} MovesPrefix(specs: seq<RefSpec>, lists: seq<seq<Reference>>, force: bool, i: nat, j: nat, n: nat)
    requires MatchedLists(specs, lists) && i < |specs| && j <= |lists[i]| && i < n <= |specs|
    ensures MovesTo(specs, lists, force, i, j) <= MovesTo(specs, lists, force, n, 0)
    decreases n - i, |lists[i]| - j
  {
    hide MoveOf;
    if j < |lists[i]| {
      NextMove(specs, lists, force, i, j);
      MovesPrefix(specs, lists, force, i, j + 1, n);
    } else {
      NextList(specs, lists, force, i);
      if i + 1 < n {
        MovesPrefix(specs, lists, force, i + 1, 0, n);
      }
    }
  }

  /** A refused move changes nothing. */
  lemma RefusedSame(s: Store, refs: Refs, m: FetchMove)
    ensures Refuses(s, refs, m) ==> After(s, refs, m) == refs
  {
  }

  lemma {:induction false} CutHere(s: Store, refs: Refs, moves: seq<FetchMove>, done: seq<FetchMove>, m: FetchMove, r: UpdateResult)
    requires done + [m] <= moves
    requires if r.CannotTellHistory? then Unclear(s, Run(s, refs, done), m)
             else r.ReferenceChanged? && Indirect(Run(s, refs, done), m)
    ensures exists k :: CutShort(s, refs, moves, Run(s, refs, done), r, k)
  {
    hide Unclear, Indirect, Run;
    assert moves[..|done|] == done && moves[|done|] == m;
    assert CutShort(s, refs, moves, Run(s, refs, done), r, |done|);
  }

  lemma {:induction false} CutLosesNothing(s: Store, refs: Refs, moves: seq<FetchMove>, k: nat)
    requires k < |moves|
    ensures NothingLost(s, refs, Run(s, refs, moves[..k]), ForcedNames(moves))
  {
    hide NothingLost, Run;
    RunLosesNothing(s, refs, moves[..k]);
    forall n | n in ForcedNames(moves[..k]) ensures n in ForcedNames(moves) {
      var i :| 0 <= i < k && moves[..k][i].forced && moves[..k][i].name == n;
      assert moves[i].forced;
    }
    LostMore(s, refs, Run(s, refs, moves[..k]), ForcedNames(moves[..k]), ForcedNames(moves));
  }

  /** A branch that has diverged, fetched without tags: the reference stays, and nobody is told. */
  method HiddenRefusal() returns (r: UpdateResult, refs: Refs)
    ensures r.Unchanged? && refs == map["refs/heads/a" := HashRef(1)]
  {
    var n := "refs/heads/a";
    var store: Store := map[1 := Commit(9, []), 2 := Commit(9, [])];
    var spec := RefSpec(false, Glob("refs/heads/", ""), Glob("refs/heads/", ""));
    var storage := new RefStorage(store, map[n := HashRef(1)]);
    var specs, lists := [spec], [[Reference(n, HashRef(2))]];
    assert Matches(spec.src, n) && Dst(spec, n) == n;
    ghost var m := FetchMove(n, 2, false);
    assert MovesTo(specs, lists, false, 1, 0) == [m] by {
      NextList(specs, lists, false, 0);
      NextMove(specs, lists, false, 0, 0);
      assert MovesTo(specs, lists, false, 0, 0) == [];
    }
    assert n[5] != "refs/tags/"[5];
    Diverged(store, map[n := HashRef(1)], n, m);
    r := storage.UpdateLocalReferenceStorage(specs, lists, map[], map[], true, false);
    refs := storage.refs;
  }

  lemma {:induction false} Diverged(s: Store, refs: Refs, n: string, m: FetchMove)
    requires s == map[1 := Commit(9, []), 2 := Commit(9, [])] && refs == map[n := HashRef(1)] && !IsTag(n)
    requires m == FetchMove(n, 2, false)
    ensures Run(s, refs, [m]) == refs && !SomeChanged(s, refs, [m]) && SomeRefused(s, refs, [m])
    ensures forall after, r, k :: !CutShort(s, refs, [m], after, r, k)
  {
    var g := CommitGraph(s);
    forall b | Reaches(g, 2, b) ensures b == 2 {
      if b != 2 {
        var c := FirstEdge(g, 2, b);
      }
    }
    assert Refuses(s, refs, m);
    assert [] + [m] == [m];
    RunPush(s, refs, [], m);
  }
}
