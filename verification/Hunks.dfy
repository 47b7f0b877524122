/** Turning a line diff into the hunks of a unified patch, and applying such a patch. */
module Hunks {
  import opened Wrappers

  datatype Operation = Equal | Add | Delete

  /** A run of lines with one operation. */
  datatype Chunk = Chunk(op: Operation, lines: seq<string>)

  datatype Op = Op(text: string, op: Operation)

  datatype Hunk = Hunk(fromLine: int, toLine: int, fromCount: nat, toCount: nat, ops: seq<Op>)

  // --- The two sides of a diff ------------------------------------------------------------

  /** The lines before, or after, the change. */
  function Side(chunks: seq<Chunk>, without: Operation): seq<string> {
    if chunks == [] then []
    else
      var n := |chunks| - 1;
      if chunks[n].op == without then Side(chunks[..n], without) else Side(chunks[..n], without) + chunks[n].lines
  }

  function FromLines(chunks: seq<Chunk>): seq<string> { Side(chunks, Add) }

  function ToLines(chunks: seq<Chunk>): seq<string> { Side(chunks, Delete) }

  function OpSide(ops: seq<Op>, without: Operation): seq<string> {
    if ops == [] then []
    else
      var n := |ops| - 1;
      if ops[n].op == without then OpSide(ops[..n], without) else OpSide(ops[..n], without) + [ops[n].text]
  }

  lemma {:induction false} OpSideConcat(a: seq<Op>, b: seq<Op>, without: Operation)
    ensures OpSide(a + b, without) == OpSide(a, without) + OpSide(b, without)
  {
    if b == [] {
      assert a + b == a;
    } else {
      var n := |b| - 1;
      OpSideConcat(a, b[..n], without);
      assert (a + b)[..|a| + n] == a + b[..n];
    }
  }

  function Ops(op: Operation, lines: seq<string>): seq<Op> {
    seq(|lines|, i requires 0 <= i < |lines| => Op(lines[i], op))
  }

  lemma {:induction false} OpsSide(op: Operation, lines: seq<string>, without: Operation)
    ensures OpSide(Ops(op, lines), without) == if op == without then [] else lines
  {
    if lines != [] {
      var n := |lines| - 1;
      OpsSide(op, lines[..n], without);
      assert Ops(op, lines)[..n] == Ops(op, lines[..n]);
      assert lines == lines[..n] + [lines[n]];
    }
  }

  // --- Applying a patch ---------------------------------------------------------------------

  /** How far a patch has been applied: lines consumed, lines produced. */
  datatype Progress = Progress(pos: nat, out: seq<string>)

  /** Applies one hunk where it says: what lies before it is copied, the old lines must be
      there, and the new ones must land where the hunk says.  A side without lines is
      numbered by the line before it (POSIX diff, "Diff -u or -U Output Format"). */
  function ApplyHunk(from: seq<string>, p: Progress, h: Hunk): Option<Progress> {
    var start := if h.fromCount > 0 then h.fromLine - 1 else h.fromLine;
    var target := if h.toCount > 0 then h.toLine - 1 else h.toLine;
    if && p.pos <= start && start + h.fromCount <= |from|
       && |p.out| + (start - p.pos) == target
       && h.fromCount == |OpSide(h.ops, Add)| && h.toCount == |OpSide(h.ops, Delete)|
       && from[start..start + h.fromCount] == OpSide(h.ops, Add)
    then Some(Progress(start + h.fromCount, p.out + from[p.pos..start] + OpSide(h.ops, Delete)))
    else None
  }

  function ApplyHunks(from: seq<string>, hunks: seq<Hunk>): Option<Progress> {
    if hunks == [] then Some(Progress(0, []))
    else
      var p := ApplyHunks(from, hunks[..|hunks| - 1]);
      if p.None? then None else ApplyHunk(from, p.value, hunks[|hunks| - 1])
  }

  /** The result of applying a patch: what comes after the last hunk is copied. */
  function Apply(from: seq<string>, hunks: seq<Hunk>): Option<seq<string>> {
    var p := ApplyHunks(from, hunks);
    if p.None? || p.value.pos > |from| then None else Some(p.value.out + from[p.value.pos..])
  }

  // --- Generating hunks -----------------------------------------------------------------------

  /** `hunk.AddOp`. */
  function AddOp(h: Hunk, op: Operation, lines: seq<string>): Hunk {
    var n := |lines|;
    h.(toCount := if op == Delete then h.toCount else h.toCount + n,
       fromCount := if op == Add then h.fromCount else h.fromCount + n,
       ops := h.ops + Ops(op, lines))
  }

  /** The fields of the generator between two chunks. */
  datatype Gen = Gen(fromLine: int, toLine: int, hunks: seq<Hunk>, current: Option<Hunk>, before: seq<string>)

  /** `addLineNumbers`. */
  function LineNumbers(chunks: seq<Chunk>, ctx: nat, la: int, lb: int, linesBefore: nat, i: nat, op: Operation): (int, int)
    requires i < |chunks|
  {
    var clb :=
      if linesBefore != 0 && ctx != 0 then (if lb > ctx then lb - ctx + 1 else 1)
      else if ctx == 0 then lb
      else if i != |chunks| - 1 && (chunks[i + 1].op == op || chunks[i + 1].op == Equal) then lb + 1
      else 0;
    (la - linesBefore, clb)
  }

  /** Where a hunk that opens with chunk `i` starts on both sides. */
  function StartLines(chunks: seq<Chunk>, ctx: nat, i: nat, fromLine: int, toLine: int, linesBefore: nat): (int, int)
    requires i < |chunks|
  {
    if chunks[i].op == Delete then
      LineNumbers(chunks, ctx, fromLine, toLine, linesBefore, i, Add)
    else
      var (t, f) := LineNumbers(chunks, ctx, toLine, fromLine, linesBefore, i, Delete);
      (f, t)
  }

  function ContextBefore(ctx: nat, before: seq<string>): seq<string> {
    if |before| > ctx then before[|before| - ctx..] else before
  }

  /** `processHunk`: opens a hunk for the change at chunk `i`, unless one is open. */
  function OpenHunk(chunks: seq<Chunk>, ctx: nat, i: nat, g: Gen): Gen
    requires i < |chunks| && chunks[i].op != Equal
  {
    if g.current.Some? then g
    else
      var context := ContextBefore(ctx, g.before);
      var (f, t) := StartLines(chunks, ctx, i, g.fromLine, g.toLine, |context|);
      g.(current := Some(AddOp(Hunk(f, t, 0, 0, []), Equal, context)), before := [])
  }

  /** `processEqualsLines`: goes on with the open hunk, or closes it with its context. */
  function EqualLines(chunks: seq<Chunk>, ctx: nat, i: nat, g: Gen): Gen
    requires i < |chunks|
  {
    var lines := chunks[i].lines;
    if g.current.None? then g.(before := g.before + lines)
    else if |lines| <= ctx * 2 && i != |chunks| - 1 then
      g.(current := Some(AddOp(g.current.value, Equal, lines)))
    else
      var k := if ctx > |lines| then |lines| else ctx;
      g.(hunks := g.hunks + [AddOp(g.current.value, Equal, lines[..k])], current := None, before := lines[k..])
  }

  /** One turn of the loop of `Generate`, except for the last hunk. */
  function Turn(chunks: seq<Chunk>, ctx: nat, i: nat, g: Gen): Gen
    requires i < |chunks|
  {
    var n := |chunks[i].lines|;
    match chunks[i].op
    case Equal =>
      EqualLines(chunks, ctx, i, g.(fromLine := g.fromLine + n, toLine := g.toLine + n))
    case Delete =>
      var g1 := OpenHunk(chunks, ctx, i, if n != 0 then g.(fromLine := g.fromLine + 1) else g);
      g1.(fromLine := g1.fromLine + n - 1, current := Some(AddOp(g1.current.value, Delete, chunks[i].lines)))
    case Add =>
      var g1 := OpenHunk(chunks, ctx, i, if n != 0 then g.(toLine := g.toLine + 1) else g);
      g1.(toLine := g1.toLine + n - 1, current := Some(AddOp(g1.current.value, Add, chunks[i].lines)))
  }

  function Turns(chunks: seq<Chunk>, ctx: nat, i: nat): Gen
    requires i <= |chunks|
  {
    if i == 0 then Gen(0, 0, [], None, []) else Turn(chunks, ctx, i - 1, Turns(chunks, ctx, i - 1))
  }

  /** The hunks for a diff. */
  function Generated(chunks: seq<Chunk>, ctx: nat): seq<Hunk> {
    var g := Turns(chunks, ctx, |chunks|);
    if g.current.Some? then g.hunks + [g.current.value] else g.hunks
  }

  // --- What is true between two chunks ------------------------------------------------------

  /** No chunk is empty, and two neighbours are not both additions or both deletions. */
  ghost predicate Tidy(chunks: seq<Chunk>) {
    && (forall i :: 0 <= i < |chunks| ==> chunks[i].lines != [])
    && forall i :: !Repeats(chunks, i)
  }

  ghost predicate Repeats(chunks: seq<Chunk>, i: int) {
    0 < i < |chunks| && chunks[i].op == chunks[i - 1].op && chunks[i].op != Equal
  }

  /** The chunk `i` is a change right after a change. */
  ghost predicate Adjoins(chunks: seq<Chunk>, i: int) {
    0 < i < |chunks| && chunks[i - 1].op != Equal && chunks[i].op != Equal
  }

  /** Additions and deletions touch only where there is context to number them by. */
  ghost predicate Numberable(chunks: seq<Chunk>, ctx: nat) {
    ctx > 0 || forall i :: !Adjoins(chunks, i)
  }

  /** A hunk that is being made: which lines it stands for. */
  ghost predicate Stands(from: seq<string>, to: seq<string>, p: Progress, h: Hunk) {
    && h.fromCount == |OpSide(h.ops, Add)| && h.toCount == |OpSide(h.ops, Delete)|
    && p.pos + h.fromCount <= |from|
    && from[|from| - h.fromCount..] == OpSide(h.ops, Add)
    && to == p.out + from[p.pos..|from| - h.fromCount] + OpSide(h.ops, Delete)
  }

  /** The number of a side that starts after `start` lines and has or will have lines. */
  ghost predicate Numbered(line: int, start: int, count: nat, more: bool) {
    line == if count > 0 || more then start + 1 else start
  }

  /** No hunk is open: the saved context is what has come since the last one.  Before a new
      hunk there are more lines than it takes as context. */
  ghost predicate ClosedOk(chunks: seq<Chunk>, ctx: nat, i: nat, p: Progress, g: Gen)
    requires i <= |chunks|
  {
    var from, to := FromLines(chunks[..i]), ToLines(chunks[..i]);
    && p.pos <= |from| && g.before == from[p.pos..] && to == p.out + g.before
    && (g.hunks == [] || |g.before| > ctx || i == |chunks|)
    && (i == 0 || chunks[i - 1].op == Equal)
  }

  /** A hunk is open: it stands for what has come since the last one and has the right
      numbers.  A side without lines gets some from the next chunk, if context is wanted. */
  ghost predicate OpenOk(chunks: seq<Chunk>, ctx: nat, i: nat, p: Progress, g: Gen)
    requires i <= |chunks| && g.current.Some?
  {
    var h, from, to := g.current.value, FromLines(chunks[..i]), ToLines(chunks[..i]);
    && i > 0 && Stands(from, to, p, h) && g.before == []
    && Numbered(h.fromLine, |from| - h.fromCount, h.fromCount, ctx > 0 && i < |chunks|)
    && Numbered(h.toLine, |to| - h.toCount, h.toCount, ctx > 0 && i < |chunks|)
    && (h.fromCount == 0 ==> chunks[i - 1].op == Add) && (h.toCount == 0 ==> chunks[i - 1].op == Delete)
    && (ctx == 0 ==> chunks[i - 1].op != Equal && (h.fromCount == 0 || h.toCount == 0))
  }

  /** After `i` chunks: the closed hunks apply, and the open hunk or the saved context holds
      what has come since. */
  ghost predicate Good(chunks: seq<Chunk>, ctx: nat, i: nat, g: Gen)
    requires i <= |chunks|
  {
    var a := ApplyHunks(FromLines(chunks), g.hunks);
    && g.fromLine == |FromLines(chunks[..i])| && g.toLine == |ToLines(chunks[..i])| && a.Some?
    && (g.hunks == [] ==> a.value == Progress(0, []))
    && if g.current.None? then ClosedOk(chunks, ctx, i, a.value, g) else OpenOk(chunks, ctx, i, a.value, g)
  }

  lemma {:induction false} SidePrefix(chunks: seq<Chunk>, i: nat, without: Operation)
    requires i <= |chunks|
    ensures Side(chunks[..i], without) <= Side(chunks, without)
    decreases |chunks|
  {
    if i < |chunks| {
      var n := |chunks| - 1;
      SidePrefix(chunks[..n], i, without);
      assert chunks[..n][..i] == chunks[..i];
    } else {
      assert chunks[..i] == chunks;
    }
  }

  lemma {:induction false} SideNext(chunks: seq<Chunk>, i: nat, without: Operation)
    requires i < |chunks|
    ensures Side(chunks[..i + 1], without) ==
              if chunks[i].op == without then Side(chunks[..i], without) else Side(chunks[..i], without) + chunks[i].lines
  {
    assert chunks[..i + 1][..i] == chunks[..i];
  }

  /** A finished hunk with the right numbers applies. */
  lemma CloseStep(full: seq<string>, from: seq<string>, to: seq<string>, p: Progress, h: Hunk)
    requires Stands(from, to, p, h) && from <= full
    requires Numbered(h.fromLine, |from| - h.fromCount, h.fromCount, false)
    requires Numbered(h.toLine, |to| - h.toCount, h.toCount, false)
    ensures ApplyHunk(full, p, h) == Some(Progress(|from|, to))
  {
    var start := |from| - h.fromCount;
    assert full[..|from|] == from;
    assert full[start..|from|] == from[start..];
    assert full[p.pos..start] == from[p.pos..start];
  }

  lemma StandsMore(from: seq<string>, to: seq<string>, p: Progress, h: Hunk, op: Operation, lines: seq<string>)
    requires Stands(from, to, p, h)
    ensures Stands(if op == Add then from else from + lines, if op == Delete then to else to + lines, p, AddOp(h, op, lines))
  {
    hide OpSide, Ops;
    var h' := AddOp(h, op, lines);
    OpSideConcat(h.ops, Ops(op, lines), Add);
    OpSideConcat(h.ops, Ops(op, lines), Delete);
    OpsSide(op, lines, Add);
    OpsSide(op, lines, Delete);
    var start := |from| - h.fromCount;
    if op != Add {
      assert (from + lines)[start..] == from[start..] + lines;
      assert (from + lines)[p.pos..start] == from[p.pos..start];
    }
    if op != Delete {
      assert p.out + from[p.pos..start] + (OpSide(h.ops, Delete) + lines) == to + lines;
    }
  }

  /** A new hunk stands for the context it starts with. */
  lemma StandsOpen(from: seq<string>, to: seq<string>, p: Progress, before: seq<string>, k: nat, f: int, t: int)
    requires p.pos <= |from| && before == from[p.pos..] && to == p.out + before && k <= |before|
    ensures Stands(from, to, p, AddOp(Hunk(f, t, 0, 0, []), Equal, before[|before| - k..]))
  {
    hide OpSide, Ops;
    var context := before[|before| - k..];
    OpsSide(Equal, context, Add);
    OpsSide(Equal, context, Delete);
    assert [] + Ops(Equal, context) == Ops(Equal, context);
    assert from[|from| - k..] == context;
    assert before == from[p.pos..|from| - k] + context;
  }

  lemma {:induction false} AppliedMore(from: seq<string>, hunks: seq<Hunk>, h: Hunk)
    requires ApplyHunks(from, hunks).Some?
    ensures ApplyHunks(from, hunks + [h]) == ApplyHunk(from, ApplyHunks(from, hunks).value, h)
  {
    assert (hunks + [h])[..|hunks|] == hunks;
  }

  // --- Every turn keeps what is true ----------------------------------------------------------

  lemma GoodEqual(chunks: seq<Chunk>, ctx: nat, i: nat, g: Gen)
    requires Tidy(chunks) && i < |chunks| && Good(chunks, ctx, i, g) && chunks[i].op == Equal
    ensures Good(chunks, ctx, i + 1, Turn(chunks, ctx, i, g))
  {
    hide ApplyHunks, ApplyHunk, Side, AddOp, Stands;
    var from, to, lines := FromLines(chunks[..i]), ToLines(chunks[..i]), chunks[i].lines;
    var full := FromLines(chunks);
    var p := ApplyHunks(full, g.hunks).value;
    SideNext(chunks, i, Add);
    SideNext(chunks, i, Delete);
    if g.current.None? {
      assert (from + lines)[p.pos..] == from[p.pos..] + lines;
    } else {
      GoodEqualOpen(chunks, ctx, i, g);
    }
  }

  lemma GoodEqualOpen(chunks: seq<Chunk>, ctx: nat, i: nat, g: Gen)
    requires Tidy(chunks) && i < |chunks| && Good(chunks, ctx, i, g) && chunks[i].op == Equal && g.current.Some?
    ensures Good(chunks, ctx, i + 1, Turn(chunks, ctx, i, g))
  {
    hide ApplyHunks, Side, Stands, Ops, ClosedOk;
    var from, to, lines := FromLines(chunks[..i]), ToLines(chunks[..i]), chunks[i].lines;
    var h := g.current.value;
    var p := ApplyHunks(FromLines(chunks), g.hunks).value;
    SideNext(chunks, i, Add);
    SideNext(chunks, i, Delete);
    if |lines| <= ctx * 2 && i != |chunks| - 1 {
      StandsMore(from, to, p, h, Equal, lines);
    } else {
      var k := if ctx > |lines| then |lines| else ctx;
      CloseWith(chunks, ctx, i, p, g, k);
      AfterClose(chunks, ctx, i, Turn(chunks, ctx, i, g), k);
    }
  }

  /** The hunk that ends with `k` lines of the equal chunk `i` applies. */
  lemma CloseWith(chunks: seq<Chunk>, ctx: nat, i: nat, p: Progress, g: Gen, k: nat)
    requires i < |chunks| && g.current.Some? && OpenOk(chunks, ctx, i, p, g) && chunks[i].op == Equal
    requires k <= |chunks[i].lines| && (k > 0 <==> ctx > 0) && ApplyHunks(FromLines(chunks), g.hunks) == Some(p)
    ensures ApplyHunks(FromLines(chunks), g.hunks + [AddOp(g.current.value, Equal, chunks[i].lines[..k])]) ==
              Some(Progress(|FromLines(chunks[..i])| + k, ToLines(chunks[..i]) + chunks[i].lines[..k]))
  {
    hide ApplyHunks, ApplyHunk, Side, Stands, Ops;
    var from, to, part := FromLines(chunks[..i]), ToLines(chunks[..i]), chunks[i].lines[..k];
    var h := AddOp(g.current.value, Equal, part);
    StandsMore(from, to, p, g.current.value, Equal, part);
    SideNext(chunks, i, Add);
    SidePrefix(chunks, i + 1, Add);
    assert from + part <= from + chunks[i].lines;
    CloseStep(FromLines(chunks), from + part, to + part, p, h);
    AppliedMore(FromLines(chunks), g.hunks, h);
  }

  /** After closing a hunk, the rest of the equal chunk is saved. */
  lemma AfterClose(chunks: seq<Chunk>, ctx: nat, i: nat, g: Gen, k: nat)
    requires i < |chunks| && chunks[i].op == Equal && k <= |chunks[i].lines| && g.before == chunks[i].lines[k..]
    requires |g.before| > ctx || i + 1 == |chunks|
    ensures ClosedOk(chunks, ctx, i + 1, Progress(|FromLines(chunks[..i])| + k, ToLines(chunks[..i]) + chunks[i].lines[..k]), g)
  {
    hide Side;
    var from, to, lines := FromLines(chunks[..i]), ToLines(chunks[..i]), chunks[i].lines;
    SideNext(chunks, i, Add);
    SideNext(chunks, i, Delete);
    assert (from + lines)[|from| + k..] == lines[k..];
    assert to + lines == to + lines[..k] + lines[k..];
  }

  /** A change right after a change goes into the open hunk. */
  lemma GoodMore(chunks: seq<Chunk>, ctx: nat, i: nat, g: Gen)
    requires Tidy(chunks) && (ctx > 0 || !Adjoins(chunks, i))
    requires i < |chunks| && Good(chunks, ctx, i, g) && chunks[i].op != Equal && g.current.Some?
    ensures Good(chunks, ctx, i + 1, Turn(chunks, ctx, i, g))
  {
    hide ApplyHunks, ApplyHunk, Side, Stands;
    var from, to, lines := FromLines(chunks[..i]), ToLines(chunks[..i]), chunks[i].lines;
    var p := ApplyHunks(FromLines(chunks), g.hunks).value;
    SideNext(chunks, i, Add);
    SideNext(chunks, i, Delete);
    StandsMore(from, to, p, g.current.value, chunks[i].op, lines);
    assert !Repeats(chunks, i);
  }

  /** The numbers of a hunk that opens with chunk `i` and takes `k` lines as context. */
  lemma OpenNumbers(chunks: seq<Chunk>, ctx: nat, i: nat, fromLine: nat, toLine: nat, k: nat)
    requires Tidy(chunks) && i < |chunks| && chunks[i].op != Equal && k <= ctx && k <= fromLine && k <= toLine
    requires k == ctx || k == fromLine == toLine
    ensures var (f, t) := if chunks[i].op == Delete then StartLines(chunks, ctx, i, fromLine + 1, toLine, k)
                          else StartLines(chunks, ctx, i, fromLine, toLine + 1, k);
            && Numbered(f, fromLine - k, k, chunks[i].op == Delete || (ctx > 0 && i + 1 < |chunks|))
            && Numbered(t, toLine - k, k, chunks[i].op == Add || (ctx > 0 && i + 1 < |chunks|))
  {
    assert !Repeats(chunks, i + 1);
  }

  /** What a turn that opens a hunk makes of the generator. */
  lemma OpenTurn(chunks: seq<Chunk>, ctx: nat, i: nat, g: Gen) returns (h: Hunk)
    requires i < |chunks| && chunks[i].op != Equal && chunks[i].lines != [] && g.current.None?
    ensures var context := ContextBefore(ctx, g.before);
            h == AddOp(Hunk(h.fromLine, h.toLine, 0, 0, []), Equal, context)
            && (h.fromLine, h.toLine) ==
                 if chunks[i].op == Delete then StartLines(chunks, ctx, i, g.fromLine + 1, g.toLine, |context|)
                 else StartLines(chunks, ctx, i, g.fromLine, g.toLine + 1, |context|)
    ensures var g' := Turn(chunks, ctx, i, g);
            && g'.hunks == g.hunks && g'.before == [] && g'.current == Some(AddOp(h, chunks[i].op, chunks[i].lines))
            && g'.fromLine == g.fromLine + (if chunks[i].op == Add then 0 else |chunks[i].lines|)
            && g'.toLine == g.toLine + (if chunks[i].op == Delete then 0 else |chunks[i].lines|)
  {
    hide StartLines, Ops, ContextBefore;
    var g0 := if chunks[i].op == Delete then g.(fromLine := g.fromLine + 1) else g.(toLine := g.toLine + 1);
    h := OpenHunk(chunks, ctx, i, g0).current.value;
  }

  /** How much is saved when no hunk is open. */
  lemma SavedLines(chunks: seq<Chunk>, ctx: nat, i: nat, p: Progress, g: Gen)
    requires i < |chunks| && ClosedOk(chunks, ctx, i, p, g) && (g.hunks == [] ==> p == Progress(0, []))
    ensures var k := |ContextBefore(ctx, g.before)|;
            && k <= ctx && k <= |FromLines(chunks[..i])| && k <= |ToLines(chunks[..i])|
            && (k == ctx || k == |FromLines(chunks[..i])| == |ToLines(chunks[..i])|)
  {
  }

  /** A hunk opened by chunk `i` stands for its context and that chunk. */
  lemma OpenedStands(chunks: seq<Chunk>, ctx: nat, i: nat, p: Progress, g: Gen, f: int, t: int)
    requires i < |chunks| && ClosedOk(chunks, ctx, i, p, g) && chunks[i].op != Equal
    ensures var h := AddOp(Hunk(f, t, 0, 0, []), Equal, ContextBefore(ctx, g.before));
            Stands(FromLines(chunks[..i + 1]), ToLines(chunks[..i + 1]), p, AddOp(h, chunks[i].op, chunks[i].lines))
  {
    hide Side, Stands, Ops;
    var from, to := FromLines(chunks[..i]), ToLines(chunks[..i]);
    SideNext(chunks, i, Add);
    SideNext(chunks, i, Delete);
    var context := ContextBefore(ctx, g.before);
    assert g.before[|g.before| - |context|..] == context;
    StandsOpen(from, to, p, g.before, |context|, f, t);
    StandsMore(from, to, p, AddOp(Hunk(f, t, 0, 0, []), Equal, context), chunks[i].op, chunks[i].lines);
  }

  /** A change after context opens a hunk. */
  lemma GoodOpen(chunks: seq<Chunk>, ctx: nat, i: nat, g: Gen)
    requires Tidy(chunks) && i < |chunks| && Good(chunks, ctx, i, g) && chunks[i].op != Equal && g.current.None?
    ensures Good(chunks, ctx, i + 1, Turn(chunks, ctx, i, g))
  {
    hide ApplyHunks, Side, Stands, Turn, Ops, StartLines, ClosedOk, ContextBefore;
    var h := OpenTurn(chunks, ctx, i, g);
    var p := ApplyHunks(FromLines(chunks), g.hunks).value;
    SideNext(chunks, i, Add);
    SideNext(chunks, i, Delete);
    SavedLines(chunks, ctx, i, p, g);
    OpenNumbers(chunks, ctx, i, g.fromLine, g.toLine, |ContextBefore(ctx, g.before)|);
    OpenedStands(chunks, ctx, i, p, g, h.fromLine, h.toLine);
  }

  lemma {:induction false} AlwaysGood(chunks: seq<Chunk>, ctx: nat, i: nat)
    requires Tidy(chunks) && i <= |chunks| && (ctx > 0 || forall j :: j < i ==> !Adjoins(chunks, j))
    ensures Good(chunks, ctx, i, Turns(chunks, ctx, i))
  {
    if i == 0 {
    } else {
      AlwaysGood(chunks, ctx, i - 1);
      GoodTurn(chunks, ctx, i - 1, Turns(chunks, ctx, i - 1));
    }
  }

  lemma GoodTurn(chunks: seq<Chunk>, ctx: nat, i: nat, g: Gen)
    requires Tidy(chunks) && i < |chunks| && Good(chunks, ctx, i, g) && (ctx > 0 || !Adjoins(chunks, i))
    ensures Good(chunks, ctx, i + 1, Turn(chunks, ctx, i, g))
  {
    hide Turn;
    if chunks[i].op == Equal {
      GoodEqual(chunks, ctx, i, g);
    } else if g.current.None? {
      GoodOpen(chunks, ctx, i, g);
    } else {
      GoodMore(chunks, ctx, i, g);
    }
  }

  /** The patch turns the old lines into the new ones. */
  lemma GoodPatch(chunks: seq<Chunk>, ctx: nat)
    requires Tidy(chunks) && Numberable(chunks, ctx)
    ensures Apply(FromLines(chunks), Generated(chunks, ctx)) == Some(ToLines(chunks))
  {
    hide ApplyHunks, ApplyHunk, Side, Stands, Turn;
    var g := Turns(chunks, ctx, |chunks|);
    AlwaysGood(chunks, ctx, |chunks|);
    assert chunks[..|chunks|] == chunks;
    var from, to := FromLines(chunks), ToLines(chunks);
    if g.current.Some? {
      var p := ApplyHunks(from, g.hunks).value;
      CloseStep(from, from, to, p, g.current.value);
      AppliedMore(from, g.hunks, g.current.value);
      assert to + from[|from|..] == to;
    }
  }

  // --- Where the numbers go wrong -------------------------------------------------------------

  /** An open hunk with lines on both sides one of which is numbered as if it had none. */
  ghost predicate Misnumbered(chunks: seq<Chunk>, i: nat, g: Gen)
    requires i <= |chunks|
  {
    var from, to := FromLines(chunks[..i]), ToLines(chunks[..i]);
    var a := ApplyHunks(FromLines(chunks), g.hunks);
    && g.fromLine == |from| && g.toLine == |to| && a.Some? && g.current.Some?
    && var h := g.current.value;
      Stands(from, to, a.value, h) && h.fromCount > 0 && h.toCount > 0
      && var s, t := |from| - h.fromCount, |to| - h.toCount;
        (h.fromLine == s + 1 && h.toLine == t) || (h.fromLine == s && h.toLine == t + 1)
  }

  ghost predicate Spoilt(chunks: seq<Chunk>, i: nat, g: Gen)
    requires i <= |chunks|
  {
    ApplyHunks(FromLines(chunks), g.hunks).None? || Misnumbered(chunks, i, g)
  }

  /** A misnumbered hunk does not apply. */
  lemma BadClose(full: seq<string>, from: seq<string>, to: seq<string>, p: Progress, h: Hunk)
    requires Stands(from, to, p, h) && h.fromCount > 0 && h.toCount > 0
    requires var s, t := |from| - h.fromCount, |to| - h.toCount;
             (h.fromLine == s + 1 && h.toLine == t) || (h.fromLine == s && h.toLine == t + 1)
    ensures ApplyHunk(full, p, h) == None
  {
    assert |to| == |p.out| + (|from| - h.fromCount - p.pos) + h.toCount;
  }

  /** Without context, a change right after another one spoils the hunk. */
  lemma SpoilsHere(chunks: seq<Chunk>, i: nat, g: Gen)
    requires Tidy(chunks) && Adjoins(chunks, i) && Good(chunks, 0, i, g)
    ensures Misnumbered(chunks, i + 1, Turn(chunks, 0, i, g))
  {
    hide ApplyHunks, ApplyHunk, Side, Stands;
    var from, to, lines := FromLines(chunks[..i]), ToLines(chunks[..i]), chunks[i].lines;
    var p := ApplyHunks(FromLines(chunks), g.hunks).value;
    SideNext(chunks, i, Add);
    SideNext(chunks, i, Delete);
    StandsMore(from, to, p, g.current.value, chunks[i].op, lines);
    assert !Repeats(chunks, i);
  }

  lemma SpoiltMore(chunks: seq<Chunk>, i: nat, g: Gen)
    requires i < |chunks| && Misnumbered(chunks, i, g) && chunks[i].lines != []
    ensures Spoilt(chunks, i + 1, Turn(chunks, 0, i, g))
  {
    hide ApplyHunks, ApplyHunk, Side, Stands, Ops;
    var from, to, lines := FromLines(chunks[..i]), ToLines(chunks[..i]), chunks[i].lines;
    var p, h := ApplyHunks(FromLines(chunks), g.hunks).value, g.current.value;
    if chunks[i].op == Equal {
      StandsMore(from, to, p, h, Equal, lines[..0]);
      var h' := AddOp(h, Equal, lines[..0]);
      assert from + lines[..0] == from && to + lines[..0] == to;
      BadClose(FromLines(chunks), from, to, p, h');
      AppliedMore(FromLines(chunks), g.hunks, h');
    } else {
      SideNext(chunks, i, Add);
      SideNext(chunks, i, Delete);
      StandsMore(from, to, p, h, chunks[i].op, lines);
    }
  }

  lemma {:induction false} FailureStays(from: seq<string>, hunks: seq<Hunk>, h: Hunk)
    requires ApplyHunks(from, hunks).None?
    ensures ApplyHunks(from, hunks + [h]).None?
  {
    assert (hunks + [h])[..|hunks|] == hunks;
  }

  lemma SpoiltTurn(chunks: seq<Chunk>, i: nat, g: Gen)
    requires i < |chunks| && Spoilt(chunks, i, g) && chunks[i].lines != []
    ensures Spoilt(chunks, i + 1, Turn(chunks, 0, i, g))
  {
    if ApplyHunks(FromLines(chunks), g.hunks).None? {
      hide ApplyHunks, Side, AddOp, OpenHunk;
      var g' := Turn(chunks, 0, i, g);
      TurnHunks(chunks, i, g);
      if g'.hunks != g.hunks {
        FailureStays(FromLines(chunks), g.hunks, g'.hunks[|g.hunks|]);
      }
    } else {
      SpoiltMore(chunks, i, g);
    }
  }

  /** A turn closes at most one hunk. */
  lemma TurnHunks(chunks: seq<Chunk>, i: nat, g: Gen)
    requires i < |chunks|
    ensures var g' := Turn(chunks, 0, i, g);
            g'.hunks == g.hunks || (|g'.hunks| == |g.hunks| + 1 && g'.hunks == g.hunks + [g'.hunks[|g.hunks|]])
  {
    hide AddOp, StartLines;
  }

  lemma {:induction false} StaysSpoilt(chunks: seq<Chunk>, k: nat, i: nat)
    requires Tidy(chunks) && Adjoins(chunks, k) && (forall j :: j < k ==> !Adjoins(chunks, j)) && k < i <= |chunks|
    ensures Spoilt(chunks, i, Turns(chunks, 0, i))
  {
    hide Turn, Spoilt, Misnumbered;
    if i == k + 1 {
      AlwaysGood(chunks, 0, k);
      SpoilsHere(chunks, k, Turns(chunks, 0, k));
      SpoiltNow(chunks, i, Turns(chunks, 0, i));
    } else {
      StaysSpoilt(chunks, k, i - 1);
      SpoiltTurn(chunks, i - 1, Turns(chunks, 0, i - 1));
    }
  }

  lemma SpoiltNow(chunks: seq<Chunk>, i: nat, g: Gen)
    requires i <= |chunks| && Misnumbered(chunks, i, g)
    ensures Spoilt(chunks, i, g)
  {
  }

  lemma {:induction false} FirstAdjoining(chunks: seq<Chunk>, i: int) returns (k: nat)
    requires Adjoins(chunks, i)
    ensures Adjoins(chunks, k) && forall j :: j < k ==> !Adjoins(chunks, j)
    decreases i
  {
    if j :| j < i && Adjoins(chunks, j) {
      k := FirstAdjoining(chunks, j);
    } else {
      k := i;
    }
  }

  /** Without context, additions next to deletions make a patch that does not apply. */
  lemma BadPatch(chunks: seq<Chunk>, i: int)
    requires Tidy(chunks) && Adjoins(chunks, i)
    ensures Apply(FromLines(chunks), Generated(chunks, 0)) == None
  {
    hide ApplyHunks, ApplyHunk, Side, Stands, Turn;
    var k := FirstAdjoining(chunks, i);
    StaysSpoilt(chunks, k, |chunks|);
    var g := Turns(chunks, 0, |chunks|);
    var from, to := FromLines(chunks), ToLines(chunks);
    assert chunks[..|chunks|] == chunks;
    if ApplyHunks(from, g.hunks).None? {
      if g.current.Some? {
        FailureStays(from, g.hunks, g.current.value);
      }
    } else {
      var p := ApplyHunks(from, g.hunks).value;
      BadClose(from, from, to, p, g.current.value);
      AppliedMore(from, g.hunks, g.current.value);
    }
  }

  /** Replacing one line without context is already such a case. */
  lemma NoContextExample()
    ensures var chunks := [Chunk(Delete, ["a"]), Chunk(Add, ["b"])];
            Tidy(chunks) && Apply(FromLines(chunks), Generated(chunks, 0)) == None
  {
    var chunks := [Chunk(Delete, ["a"]), Chunk(Add, ["b"])];
    hide Apply, Generated, Side;
    assert Adjoins(chunks, 1);
    BadPatch(chunks, 1);
  }

  /** The patch of a tidy diff turns the old lines into the new ones if it has context or no
      addition touches a deletion, and does not apply at all otherwise. */
  lemma PatchApplies(chunks: seq<Chunk>, ctx: nat)
    requires Tidy(chunks)
    ensures Apply(FromLines(chunks), Generated(chunks, ctx)) ==
              if Numberable(chunks, ctx) then Some(ToLines(chunks)) else None
  {
    hide Apply, Generated, Side, Adjoins;
    if Numberable(chunks, ctx) {
      GoodPatch(chunks, ctx);
    } else {
      var i :| Adjoins(chunks, i);
      BadPatch(chunks, i);
    }
  }

  // --- How much context a hunk has ------------------------------------------------------------

  /** The whole diff, line by line. */
  ghost function AllOps(chunks: seq<Chunk>): seq<Op> {
    if chunks == [] then []
    else
      var n := |chunks| - 1;
      AllOps(chunks[..n]) + Ops(chunks[n].op, chunks[n].lines)
  }

  ghost predicate IsChange(all: seq<Op>, y: int) {
    0 <= y < |all| && all[y].op != Equal
  }

  /** There is a change at most `ctx` lines away. */
  ghost predicate Near(all: seq<Op>, ctx: nat, x: int) {
    exists y :: IsChange(all, y) && x - ctx <= y <= x + ctx
  }

  /** The hunks are parts of the diff, in order, with lines left out between them. */
  ghost predicate Parts(all: seq<Op>, hunks: seq<Hunk>, cuts: seq<(nat, nat)>) {
    && |cuts| == |hunks|
    && (forall k :: 0 <= k < |cuts| ==> cuts[k].0 < cuts[k].1 <= |all| && hunks[k].ops == all[cuts[k].0..cuts[k].1])
    && (forall k, l :: 0 <= k < l < |cuts| ==> cuts[k].1 < cuts[l].0)
  }

  ghost predicate Within(cuts: seq<(nat, nat)>, x: int) {
    exists k :: 0 <= k < |cuts| && cuts[k].0 <= x < cuts[k].1
  }

  /** The hunks are exactly the longest stretches of lines near a change. */
  ghost predicate Stretches(all: seq<Op>, ctx: nat, hunks: seq<Hunk>, cuts: seq<(nat, nat)>) {
    Parts(all, hunks, cuts) && forall x :: 0 <= x < |all| ==> (Within(cuts, x) <==> Near(all, ctx, x))
  }

  ghost predicate NoneEmpty(chunks: seq<Chunk>) {
    forall i :: 0 <= i < |chunks| ==> chunks[i].lines != []
  }

  /** How many lines the equal chunks have from this one to the next change. */
  ghost function RunLength(chunks: seq<Chunk>, i: nat): nat
    requires i <= |chunks|
    decreases |chunks| - i
  {
    if i == |chunks| || chunks[i].op != Equal then 0 else |chunks[i].lines| + RunLength(chunks, i + 1)
  }

  /** Where the equal chunks end. */
  ghost function RunEnd(chunks: seq<Chunk>, i: nat): (r: nat)
    requires i <= |chunks|
    ensures i <= r <= |chunks|
    decreases |chunks| - i
  {
    if i == |chunks| || chunks[i].op != Equal then i else RunEnd(chunks, i + 1)
  }

  /** How many of them may all be context: of two changes, or of one at the end of the diff. */
  ghost function RunLimit(chunks: seq<Chunk>, ctx: nat, i: nat): nat
    requires i <= |chunks|
  {
    if RunEnd(chunks, i) == |chunks| then ctx else 2 * ctx
  }

  /** Behind a change comes a short equal chunk and then another one, and together they are more
      than context. */
  ghost predicate Overlong(chunks: seq<Chunk>, ctx: nat, i: int) {
    && 0 < i < |chunks| - 1
    && chunks[i - 1].op != Equal && chunks[i].op == Equal && chunks[i + 1].op == Equal
    && |chunks[i].lines| <= 2 * ctx && RunLength(chunks, i) > RunLimit(chunks, ctx, i)
  }

  lemma {:induction false} AllOpsNext(chunks: seq<Chunk>, i: nat)
    requires i < |chunks|
    ensures AllOps(chunks[..i + 1]) == AllOps(chunks[..i]) + Ops(chunks[i].op, chunks[i].lines)
  {
    assert chunks[..i + 1][..i] == chunks[..i];
  }

  /** The end of the last part. */
  function EndOf(cuts: seq<(nat, nat)>): nat {
    if cuts == [] then 0 else cuts[|cuts| - 1].1
  }

  /** No hunk is open: what has come since the last one is saved, and too far from the changes. */
  ghost predicate Resting(all: seq<Op>, ctx: nat, last: bool, g: Gen, cuts: seq<(nat, nat)>) {
    var e := EndOf(cuts);
    && e <= |all| && all[e..] == Ops(Equal, g.before)
    && ((e == |all| && last) || forall y :: IsChange(all, y) ==> y + ctx < e)
    && (cuts == [] || |g.before| > ctx || last)
  }

  /** A hunk is open from line `a` on.  Its last `t` lines wait for the next change. */
  ghost predicate Growing(all: seq<Op>, ctx: nat, last: bool, h: Hunk, cuts: seq<(nat, nat)>, a: nat, t: nat) {
    && EndOf(cuts) <= a && (cuts == [] || EndOf(cuts) < a) && a + t < |all| && h.ops == all[a..]
    && (a == 0 || a + ctx < |all|)
    && IsChange(all, |all| - t - 1) && t <= 2 * ctx && (last ==> t == 0)
    && (forall x :: |all| - t <= x < |all| ==> all[x].op == Equal)
    && (forall x :: a <= x < |all| - t ==> Near(all, ctx, x))
  }

  /** After some chunks: the closed hunks are stretches, and every line near a change is in a
      hunk. */
  ghost predicate Cutting(all: seq<Op>, ctx: nat, last: bool, g: Gen, cuts: seq<(nat, nat)>, a: nat, t: nat) {
    && Parts(all, g.hunks, cuts)
    && (forall x :: Within(cuts, x) ==> Near(all, ctx, x))
    && (if g.current.None? then Resting(all, ctx, last, g, cuts)
        else Growing(all, ctx, last, g.current.value, cuts, a, t))
    && (forall x :: 0 <= x < |all| && Near(all, ctx, x) ==> Within(cuts, x) || (g.current.Some? && a <= x))
  }

  lemma NearMore(all: seq<Op>, more: seq<Op>, ctx: nat, x: int)
    requires Near(all, ctx, x)
    ensures Near(all + more, ctx, x)
  {
    var y :| IsChange(all, y) && x - ctx <= y <= x + ctx;
    assert IsChange(all + more, y);
  }

  /** Without further changes, lines get near only behind the last one. */
  lemma NearLess(all: seq<Op>, more: seq<Op>, ctx: nat, x: int)
    requires Near(all + more, ctx, x)
    ensures Near(all, ctx, x) || (exists y :: 0 <= y < |more| && more[y].op != Equal && |all| + y <= x + ctx)
  {
    var y :| IsChange(all + more, y) && x - ctx <= y <= x + ctx;
    if y < |all| {
      assert IsChange(all, y);
    } else {
      assert more[y - |all|].op != Equal;
    }
  }

  lemma PartsMore(all: seq<Op>, more: seq<Op>, hunks: seq<Hunk>, cuts: seq<(nat, nat)>)
    requires Parts(all, hunks, cuts)
    ensures Parts(all + more, hunks, cuts)
    ensures forall x :: Within(cuts, x) ==> 0 <= x < |all|
  {
    forall k | 0 <= k < |cuts| ensures (all + more)[cuts[k].0..cuts[k].1] == all[cuts[k].0..cuts[k].1] {
    }
  }

  lemma PartsPush(all: seq<Op>, hunks: seq<Hunk>, cuts: seq<(nat, nat)>, h: Hunk, a: nat, b: nat)
    requires Parts(all, hunks, cuts) && a < b <= |all| && h.ops == all[a..b] && (cuts == [] || EndOf(cuts) < a)
    ensures Parts(all, hunks + [h], cuts + [(a, b)]) && EndOf(cuts + [(a, b)]) == b
    ensures forall x :: Within(cuts + [(a, b)], x) <==> Within(cuts, x) || a <= x < b
  {
    var cuts' := cuts + [(a, b)];
    forall k | 0 <= k < |cuts| ensures cuts[k].1 < a {
      assert k == |cuts| - 1 || cuts[k].1 < cuts[|cuts| - 1].0;
    }
    forall x ensures Within(cuts', x) <==> Within(cuts, x) || a <= x < b {
      if Within(cuts, x) {
        var k :| 0 <= k < |cuts| && cuts[k].0 <= x < cuts[k].1;
        assert cuts'[k] == cuts[k];
      }
      if a <= x < b {
        assert cuts'[|cuts|] == (a, b);
      }
    }
  }

  /** Equal lines while no hunk is open. */
  lemma RestOn(all: seq<Op>, ctx: nat, last: bool, g: Gen, cuts: seq<(nat, nat)>, a: nat, t: nat, lines: seq<string>,
               g': Gen)
    requires Cutting(all, ctx, false, g, cuts, a, t) && g.current.None?
    requires g'.hunks == g.hunks && g'.current.None? && g'.before == g.before + lines
    ensures Cutting(all + Ops(Equal, lines), ctx, last, g', cuts, a, 0)
  {
    var more := Ops(Equal, lines);
    var all' := all + more;
    PartsMore(all, more, g.hunks, cuts);
    forall x | Within(cuts, x) ensures Near(all', ctx, x) {
      NearMore(all, more, ctx, x);
    }
    assert all'[EndOf(cuts)..] == all[EndOf(cuts)..] + more;
    assert Ops(Equal, g.before) + more == Ops(Equal, g.before + lines);
    forall y | IsChange(all', y) ensures y + ctx < EndOf(cuts) {
      assert IsChange(all, y);
    }
    forall x | 0 <= x < |all'| && Near(all', ctx, x) ensures Within(cuts, x) {
      NearLess(all, more, ctx, x);
      var y :| IsChange(all, y) && x - ctx <= y <= x + ctx;
      assert x < EndOf(cuts);
    }
  }

  /** Few equal lines: the hunk stays open. */
  lemma GrowEqual(all: seq<Op>, ctx: nat, g: Gen, cuts: seq<(nat, nat)>, a: nat, t: nat, lines: seq<string>, g': Gen)
    requires Cutting(all, ctx, false, g, cuts, a, t) && g.current.Some? && t + |lines| <= 2 * ctx
    requires g'.hunks == g.hunks && g'.current == Some(AddOp(g.current.value, Equal, lines))
    ensures Cutting(all + Ops(Equal, lines), ctx, false, g', cuts, a, t + |lines|)
  {
    var more := Ops(Equal, lines);
    var all' := all + more;
    PartsMore(all, more, g.hunks, cuts);
    forall x | Near(all, ctx, x) ensures Near(all', ctx, x) {
      NearMore(all, more, ctx, x);
    }
    assert all'[a..] == all[a..] + more;
    forall x | 0 <= x < |all'| && Near(all', ctx, x) ensures Within(cuts, x) || a <= x {
      NearLess(all, more, ctx, x);
    }
  }

  /** Behind a change, equal lines are near as far as the context goes. */
  lemma NearBehind(all: seq<Op>, lines: seq<string>, ctx: nat, x: int)
    requires |all| > 0 && IsChange(all, |all| - 1) && 0 <= x < |all| + |lines|
    ensures Near(all + Ops(Equal, lines), ctx, x) <==> Near(all, ctx, x)
    ensures x >= |all| ==> (Near(all, ctx, x) <==> x < |all| + ctx)
  {
    var more := Ops(Equal, lines);
    if Near(all + more, ctx, x) {
      NearLess(all, more, ctx, x);
    }
    if Near(all, ctx, x) {
      NearMore(all, more, ctx, x);
    }
  }

  /** Many equal lines, or the last ones: the hunk takes its context and is closed. */
  lemma CloseHere(all: seq<Op>, ctx: nat, last: bool, g: Gen, cuts: seq<(nat, nat)>, a: nat, lines: seq<string>, k: nat,
                  g': Gen)
    requires Cutting(all, ctx, false, g, cuts, a, 0) && g.current.Some? && k <= |lines|
    requires k == ctx || (k == |lines| < ctx && last)
    requires |lines| - k > ctx || last
    requires g'.hunks == g.hunks + [AddOp(g.current.value, Equal, lines[..k])] && g'.current.None? && g'.before == lines[k..]
    ensures Cutting(all + Ops(Equal, lines), ctx, last, g', cuts + [(a, |all| + k)], a, 0)
  {
    hide Near;
    var all', e, cuts' := all + Ops(Equal, lines), |all| + k, cuts + [(a, |all| + k)];
    PartsMore(all, Ops(Equal, lines), g.hunks, cuts);
    assert all'[a..e] == all[a..] + Ops(Equal, lines[..k]);
    PartsPush(all', g.hunks, cuts, AddOp(g.current.value, Equal, lines[..k]), a, e);
    assert all'[e..] == Ops(Equal, lines[k..]);
    assert forall y :: IsChange(all', y) ==> y < |all|;
    forall x | 0 <= x < |all'| ensures Near(all', ctx, x) <==> Within(cuts', x) {
      NearBehind(all, lines, ctx, x);
    }
    assert forall x :: Within(cuts', x) ==> 0 <= x < |all'|;
  }

  /** The last lines, after others that are context with them. */
  lemma CloseEnd(all: seq<Op>, ctx: nat, g: Gen, cuts: seq<(nat, nat)>, a: nat, t: nat, lines: seq<string>, g': Gen)
    requires Cutting(all, ctx, false, g, cuts, a, t) && g.current.Some? && t + |lines| <= ctx
    requires g'.hunks == g.hunks + [AddOp(g.current.value, Equal, lines)] && g'.current.None? && g'.before == []
    ensures Cutting(all + Ops(Equal, lines), ctx, true, g', cuts + [(a, |all| + |lines|)], a, 0)
  {
    hide Near, Parts, Within;
    var more := Ops(Equal, lines);
    var all', cuts' := all + more, cuts + [(a, |all| + |lines|)];
    PartsMore(all, more, g.hunks, cuts);
    assert all'[a..] == all[a..] + more;
    PartsPush(all', g.hunks, cuts, AddOp(g.current.value, Equal, lines), a, |all'|);
    forall x | 0 <= x < |all'| ensures Near(all', ctx, x) <==> Within(cuts', x) {
      if Near(all', ctx, x) {
        NearLess(all, more, ctx, x);
      }
      if Near(all, ctx, x) {
        NearMore(all, more, ctx, x);
      }
      if |all| - t <= x {
        assert IsChange(all', |all| - t - 1);
        NearAt(all', ctx, x, |all| - t - 1);
      }
    }
    assert forall x :: Within(cuts', x) ==> 0 <= x < |all'|;
  }

  /** A change makes its own lines near, and those before it as far as the context goes. */
  lemma NearChange(all: seq<Op>, op: Operation, lines: seq<string>, ctx: nat, x: int)
    requires op != Equal && lines != [] && 0 <= x < |all| + |lines|
    ensures Near(all + Ops(op, lines), ctx, x) <==> Near(all, ctx, x) || |all| <= x + ctx
  {
    var more := Ops(op, lines);
    if Near(all + more, ctx, x) {
      NearLess(all, more, ctx, x);
    }
    if Near(all, ctx, x) {
      NearMore(all, more, ctx, x);
    }
    if |all| <= x + ctx {
      assert IsChange(all + more, if x < |all| then |all| else x);
    }
  }

  /** Where a new hunk would start. */
  lemma ContextStart(all: seq<Op>, ctx: nat, g: Gen, cuts: seq<(nat, nat)>) returns (a: nat)
    requires Resting(all, ctx, false, g, cuts)
    ensures a + |ContextBefore(ctx, g.before)| == |all| <= a + ctx && (a == 0 || a + ctx == |all|)
    ensures EndOf(cuts) <= a && (cuts == [] || EndOf(cuts) < a) && all[a..] == Ops(Equal, ContextBefore(ctx, g.before))
  {
    var n := |ContextBefore(ctx, g.before)|;
    a := |all| - n;
    assert all[EndOf(cuts)..][|g.before| - n..] == all[a..];
  }

  /** A change while no hunk is open: the new hunk starts with its context. */
  lemma OpenHere(all: seq<Op>, ctx: nat, last: bool, g: Gen, cuts: seq<(nat, nat)>, a0: nat, t: nat, op: Operation,
                 lines: seq<string>, h: Hunk, g': Gen)
    requires Cutting(all, ctx, false, g, cuts, a0, t) && g.current.None? && op != Equal && lines != []
    requires h.ops == Ops(Equal, ContextBefore(ctx, g.before))
    requires g'.hunks == g.hunks && g'.current == Some(AddOp(h, op, lines))
    ensures |ContextBefore(ctx, g.before)| <= |all|
    ensures Cutting(all + Ops(op, lines), ctx, last, g', cuts, |all| - |ContextBefore(ctx, g.before)|, 0)
  {
    hide Near, Resting, ContextBefore, Parts, Within;
    var a := ContextStart(all, ctx, g, cuts);
    var more := Ops(op, lines);
    var all' := all + more;
    PartsMore(all, more, g.hunks, cuts);
    assert all'[a..] == all[a..] + more;
    assert IsChange(all', |all'| - 1);
    forall x | 0 <= x < |all'| ensures Near(all', ctx, x) <==> Within(cuts, x) || a <= x {
      NearChange(all, op, lines, ctx, x);
    }
  }

  /** A change while a hunk is open: the lines that waited for it are near now. */
  lemma GrowChange(all: seq<Op>, ctx: nat, last: bool, g: Gen, cuts: seq<(nat, nat)>, a: nat, t: nat, op: Operation,
                   lines: seq<string>, g': Gen)
    requires Cutting(all, ctx, false, g, cuts, a, t) && g.current.Some? && op != Equal && lines != []
    requires g'.hunks == g.hunks && g'.current == Some(AddOp(g.current.value, op, lines))
    ensures Cutting(all + Ops(op, lines), ctx, last, g', cuts, a, 0)
  {
    hide Near, Parts, Within;
    var more := Ops(op, lines);
    var all' := all + more;
    PartsMore(all, more, g.hunks, cuts);
    assert all'[a..] == all[a..] + more;
    assert IsChange(all', |all'| - 1);
    forall x | 0 <= x < |all'| ensures Near(all', ctx, x) <==> Within(cuts, x) || a <= x {
      NearChange(all, op, lines, ctx, x);
      if |all| - t <= x && x + ctx < |all| {
        NearAt(all, ctx, x, |all| - t - 1);
      }
    }
  }

  lemma NearAt(all: seq<Op>, ctx: nat, x: int, y: int)
    requires IsChange(all, y) && x - ctx <= y <= x + ctx
    ensures Near(all, ctx, x)
  {
  }

  /** The equal chunks from `s` to before `i` have `t` lines, and the hunk is still open. */
  ghost predicate Waiting(chunks: seq<Chunk>, ctx: nat, s: nat, i: nat, t: nat) {
    && 0 < s < i <= |chunks| && chunks[s - 1].op != Equal && |chunks[s].lines| <= 2 * ctx
    && (forall j :: s <= j < i ==> chunks[j].op == Equal)
    && RunLength(chunks, s) == t + RunLength(chunks, i) && RunEnd(chunks, s) == RunEnd(chunks, i)
  }

  /** The generator cuts the diff into stretches, chunk by chunk. */
  lemma {:induction false} CutsSoFar(chunks: seq<Chunk>, ctx: nat, i: nat)
    returns (cuts: seq<(nat, nat)>, a: nat, t: nat, s: nat)
    requires NoneEmpty(chunks) && (forall j :: !Overlong(chunks, ctx, j)) && i <= |chunks|
    ensures Cutting(AllOps(chunks[..i]), ctx, i == |chunks|, Turns(chunks, ctx, i), cuts, a, t)
    ensures Turns(chunks, ctx, i).current.Some? && t == 0 <==> i > 0 && chunks[i - 1].op != Equal
    ensures Turns(chunks, ctx, i).current.Some? && t > 0 ==> Waiting(chunks, ctx, s, i, t)
  {
    hide Overlong, Waiting, Cutting;
    cuts, a, t, s := [], 0, 0, 0;
    if i > 0 {
      cuts, a, t, s := CutsSoFar(chunks, ctx, i - 1);
      cuts, a, t, s := NextCut(chunks, ctx, i - 1, Turns(chunks, ctx, i - 1), cuts, a, t, s);
    } else {
      CutsStart(ctx, chunks == []);
    }
  }

  lemma CutsStart(ctx: nat, last: bool)
    ensures Cutting([], ctx, last, Gen(0, 0, [], None, []), [], 0, 0)
  {
  }

  /** Further equal lines behind those that wait are context with them. */
  lemma WaitOn(chunks: seq<Chunk>, ctx: nat, s: nat, i: nat, t: nat)
    requires Waiting(chunks, ctx, s, i, t) && i < |chunks| && chunks[i].op == Equal && !Overlong(chunks, ctx, s)
    ensures t + |chunks[i].lines| <= if i + 1 == |chunks| then ctx else 2 * ctx
    ensures Waiting(chunks, ctx, s, i + 1, t + |chunks[i].lines|)
  {
  }

  lemma NextCut(chunks: seq<Chunk>, ctx: nat, i: nat, g: Gen, cuts: seq<(nat, nat)>, a: nat, t: nat, s: nat)
    returns (cuts': seq<(nat, nat)>, a': nat, t': nat, s': nat)
    requires NoneEmpty(chunks) && (forall j :: !Overlong(chunks, ctx, j)) && i < |chunks|
    requires Cutting(AllOps(chunks[..i]), ctx, false, g, cuts, a, t)
    requires (g.current.Some? && t == 0 <==> i > 0 && chunks[i - 1].op != Equal) && (i == 0 ==> g.current.None?)
    requires g.current.Some? && t > 0 ==> Waiting(chunks, ctx, s, i, t)
    ensures var g' := Turn(chunks, ctx, i, g);
            && Cutting(AllOps(chunks[..i + 1]), ctx, i + 1 == |chunks|, g', cuts', a', t')
            && (g'.current.Some? && t' == 0 <==> chunks[i].op != Equal)
            && (g'.current.Some? && t' > 0 ==> Waiting(chunks, ctx, s', i + 1, t'))
  {
    hide Cutting, StartLines, Ops, AllOps, ContextBefore, Overlong, Waiting;
    var all, lines, last, g' := AllOps(chunks[..i]), chunks[i].lines, i + 1 == |chunks|, Turn(chunks, ctx, i, g);
    AllOpsNext(chunks, i);
    cuts', a', t', s' := cuts, a, 0, s;
    if chunks[i].op == Equal {
      if g.current.None? {
        RestOn(all, ctx, last, g, cuts, a, t, lines, g');
      } else {
        cuts', t', s' := EqualCut(chunks, ctx, i, g, cuts, a, t, s);
      }
    } else if g.current.None? {
      var h := OpenTurn(chunks, ctx, i, g);
      OpenHere(all, ctx, last, g, cuts, a, t, chunks[i].op, lines, h, g');
      a' := |all| - |ContextBefore(ctx, g.before)|;
    } else {
      GrowChange(all, ctx, last, g, cuts, a, t, chunks[i].op, lines, g');
    }
  }

  /** Equal lines while a hunk is open. */
  lemma EqualCut(chunks: seq<Chunk>, ctx: nat, i: nat, g: Gen, cuts: seq<(nat, nat)>, a: nat, t: nat, s: nat)
    returns (cuts': seq<(nat, nat)>, t': nat, s': nat)
    requires NoneEmpty(chunks) && (forall j :: !Overlong(chunks, ctx, j)) && i < |chunks| && chunks[i].op == Equal
    requires Cutting(AllOps(chunks[..i]), ctx, false, g, cuts, a, t) && g.current.Some?
    requires if t == 0 then i > 0 && chunks[i - 1].op != Equal else Waiting(chunks, ctx, s, i, t)
    ensures var g' := Turn(chunks, ctx, i, g);
            && Cutting(AllOps(chunks[..i]) + Ops(Equal, chunks[i].lines), ctx, i + 1 == |chunks|, g', cuts', a, t')
            && (g'.current.Some? ==> t' > 0 && Waiting(chunks, ctx, s', i + 1, t'))
  {
    hide Cutting, Ops, AllOps, Overlong;
    var all, lines, last, g' := AllOps(chunks[..i]), chunks[i].lines, i + 1 == |chunks|, Turn(chunks, ctx, i, g);
    cuts', t', s' := cuts, 0, s;
    if t > 0 {
      hide Waiting;
      WaitOn(chunks, ctx, s, i, t);
      if !last {
        GrowEqual(all, ctx, g, cuts, a, t, lines, g');
        t' := t + |lines|;
      } else {
        assert lines[..|lines|] == lines && lines[|lines|..] == [];
        CloseEnd(all, ctx, g, cuts, a, t, lines, g');
        cuts' := cuts + [(a, |all| + |lines|)];
      }
    } else if |lines| <= ctx * 2 && !last {
      GrowEqual(all, ctx, g, cuts, a, 0, lines, g');
      t', s' := |lines|, i;
    } else {
      var k := if ctx > |lines| then |lines| else ctx;
      CloseHere(all, ctx, last, g, cuts, a, lines, k, g');
      cuts' := cuts + [(a, |all| + k)];
    }
  }

  lemma CutsAll(chunks: seq<Chunk>, ctx: nat) returns (cuts: seq<(nat, nat)>)
    requires NoneEmpty(chunks) && forall i :: !Overlong(chunks, ctx, i)
    ensures Stretches(AllOps(chunks), ctx, Generated(chunks, ctx), cuts)
  {
    hide Turn, AllOps, Near, Overlong, Waiting;
    var a, t, s;
    cuts, a, t, s := CutsSoFar(chunks, ctx, |chunks|);
    assert chunks[..|chunks|] == chunks;
    var all, g := AllOps(chunks), Turns(chunks, ctx, |chunks|);
    if g.current.Some? {
      PartsPush(all, g.hunks, cuts, g.current.value, a, |all|);
      cuts := cuts + [(a, |all|)];
    }
  }

  /** More equal lines in a row than the context of two changes, or than that of one at the end. */
  ghost predicate TooLong(ops: seq<Op>, ctx: nat, p: nat, q: nat) {
    p <= q <= |ops| && (forall x :: p <= x < q ==> ops[x].op == Equal) && q - p > if q == |ops| then ctx else 2 * ctx
  }

  /** A stretch has no such lines. */
  lemma StretchNotTooLong(all: seq<Op>, ctx: nat, hunks: seq<Hunk>, cuts: seq<(nat, nat)>, k: nat, p: nat, q: nat)
    requires Stretches(all, ctx, hunks, cuts) && k < |hunks| && p <= q <= |hunks[k].ops|
    requires forall x :: p <= x < q ==> hunks[k].ops[x].op == Equal
    ensures q - p <= if q == |hunks[k].ops| then ctx else 2 * ctx
  {
    var c, d := cuts[k].0, cuts[k].1;
    forall z | c + p <= z < c + q ensures !IsChange(all, z) {
      assert hunks[k].ops[z - c] == all[z];
    }
    if q - p > ctx {
      var x := c + p + ctx;
      assert Within(cuts, x);
      var y :| IsChange(all, y) && x - ctx <= y <= x + ctx;
      assert !Within(cuts, d);
      assert d <= y ==> Near(all, ctx, d);
    }
  }

  /** What has been made of the hunks is not undone. */
  lemma {:induction false} HunkStays(chunks: seq<Chunk>, ctx: nat, i: nat, h: Hunk, open: bool) returns (k: nat)
    requires i <= |chunks|
    requires if open then Turns(chunks, ctx, i).current == Some(h) else h in Turns(chunks, ctx, i).hunks
    ensures k < |Generated(chunks, ctx)|
    ensures var ops := Generated(chunks, ctx)[k].ops; if open then h.ops <= ops else h.ops == ops
    decreases |chunks| - i
  {
    hide Ops, StartLines;
    var g := Turns(chunks, ctx, i);
    if i == |chunks| {
      if open {
        k := |g.hunks|;
      } else {
        k :| 0 <= k < |g.hunks| && g.hunks[k] == h;
      }
    } else {
      var g' := Turns(chunks, ctx, i + 1);
      assert g' == Turn(chunks, ctx, i, g);
      if !open {
        k := HunkStays(chunks, ctx, i + 1, h, false);
      } else if g'.current.Some? {
        assert h.ops <= g'.current.value.ops;
        k := HunkStays(chunks, ctx, i + 1, g'.current.value, true);
      } else {
        assert g'.hunks[|g.hunks|] in g'.hunks;
        k := HunkStays(chunks, ctx, i + 1, g'.hunks[|g.hunks|], false);
      }
    }
  }

  /** Equal lines at the end of an open hunk, more than context with those that follow: they all
      get into the hunk. */
  lemma {:induction false} WalkRun(chunks: seq<Chunk>, ctx: nat, i: nat, h: Hunk, n: nat) returns (k: nat, p: nat, q: nat)
    requires NoneEmpty(chunks) && i < |chunks| && Turns(chunks, ctx, i).current == Some(h)
    requires 0 < n <= |h.ops| && forall x :: |h.ops| - n <= x < |h.ops| ==> h.ops[x].op == Equal
    requires n + RunLength(chunks, i) > RunLimit(chunks, ctx, i)
    ensures k < |Generated(chunks, ctx)| && TooLong(Generated(chunks, ctx)[k].ops, ctx, p, q)
    decreases |chunks| - i
  {
    var lines := chunks[i].lines;
    p := |h.ops| - n;
    if chunks[i].op != Equal {
      var h' := AddOp(h, chunks[i].op, lines);
      assert Turns(chunks, ctx, i + 1).current == Some(h');
      k := HunkStays(chunks, ctx, i + 1, h', true);
      q := |h.ops|;
      assert h.ops < h'.ops <= Generated(chunks, ctx)[k].ops;
    } else if |lines| <= ctx * 2 && i + 1 < |chunks| {
      k, p, q := WalkRun(chunks, ctx, i + 1, AddOp(h, Equal, lines), n + |lines|);
    } else {
      var m := if ctx > |lines| then |lines| else ctx;
      var h' := AddOp(h, Equal, lines[..m]);
      assert Turns(chunks, ctx, i + 1).hunks == Turns(chunks, ctx, i).hunks + [h'];
      k := HunkStays(chunks, ctx, i + 1, h', false);
      q := |h'.ops|;
    }
  }

  /** Behind a change a hunk is open. */
  lemma {:induction false} OpenBehind(chunks: seq<Chunk>, ctx: nat, i: nat)
    requires 0 < i <= |chunks| && chunks[i - 1].op != Equal
    ensures Turns(chunks, ctx, i).current.Some?
  {
  }

  lemma OverlongShows(chunks: seq<Chunk>, ctx: nat, i: nat) returns (k: nat, p: nat, q: nat)
    requires NoneEmpty(chunks) && Overlong(chunks, ctx, i)
    ensures k < |Generated(chunks, ctx)| && TooLong(Generated(chunks, ctx)[k].ops, ctx, p, q)
  {
    OpenBehind(chunks, ctx, i);
    var h := Turns(chunks, ctx, i).current.value;
    var h' := AddOp(h, Equal, chunks[i].lines);
    assert Turns(chunks, ctx, i + 1).current == Some(h');
    k, p, q := WalkRun(chunks, ctx, i + 1, h', |chunks[i].lines|);
  }

  /** The hunks are exactly the longest stretches of lines that are at most `ctx` lines away from a
      change, if and only if no change is followed by equal chunks that are short one by one, but more
      than context together. */
  lemma {:induction false} HunksAreStretches(chunks: seq<Chunk>, ctx: nat)
    requires NoneEmpty(chunks)
    ensures (exists cuts :: Stretches(AllOps(chunks), ctx, Generated(chunks, ctx), cuts))
            <==> forall i :: !Overlong(chunks, ctx, i)
  {
    hide Stretches, Generated, AllOps, Overlong, TooLong;
    if forall i :: !Overlong(chunks, ctx, i) {
      var _ := CutsAll(chunks, ctx);
    } else {
      var i :| Overlong(chunks, ctx, i);
      NotStretches(chunks, ctx, i);
    }
  }

  lemma {:induction false} NotStretches(chunks: seq<Chunk>, ctx: nat, i: int)
    requires NoneEmpty(chunks) && Overlong(chunks, ctx, i)
    ensures !exists cuts :: Stretches(AllOps(chunks), ctx, Generated(chunks, ctx), cuts)
  {
    hide Stretches, Generated, AllOps;
    var k, p, q := OverlongShows(chunks, ctx, i);
    forall cuts ensures !Stretches(AllOps(chunks), ctx, Generated(chunks, ctx), cuts) {
      if Stretches(AllOps(chunks), ctx, Generated(chunks, ctx), cuts) {
        StretchNotTooLong(AllOps(chunks), ctx, Generated(chunks, ctx), cuts, k, p, q);
      }
    }
  }

  /** Lines of one part are not followed by lines of another. */
  lemma OnePart(all: seq<Op>, hunks: seq<Hunk>, cuts: seq<(nat, nat)>, k: nat, p: int, q: int)
    requires Parts(all, hunks, cuts) && k < |cuts| && cuts[k].0 <= p < cuts[k].1 && p <= q
    requires forall x :: p <= x <= q ==> Within(cuts, x)
    ensures q < cuts[k].1
  {
    assert !Within(cuts, cuts[k].1);
  }

  /** Two changes with only equal lines between them are in one hunk if and only if there are at
      most twice as many as the context has. */
  lemma ChangesTogether(all: seq<Op>, ctx: nat, hunks: seq<Hunk>, cuts: seq<(nat, nat)>, y: int, z: int)
    requires Stretches(all, ctx, hunks, cuts) && IsChange(all, y) && IsChange(all, z) && y < z
    requires forall x :: y < x < z ==> all[x].op == Equal
    ensures (exists k :: 0 <= k < |cuts| && cuts[k].0 <= y && z < cuts[k].1) <==> z - y - 1 <= 2 * ctx
  {
    assert Near(all, ctx, y) && Within(cuts, y);
    if z - y - 1 <= 2 * ctx {
      forall x | y <= x <= z ensures Within(cuts, x) {
        assert x - ctx <= y || z <= x + ctx;
        assert Near(all, ctx, x);
      }
      var k :| 0 <= k < |cuts| && cuts[k].0 <= y < cuts[k].1;
      OnePart(all, hunks, cuts, k, y, z);
    } else {
      var x := y + ctx + 1;
      assert !Near(all, ctx, x);
      assert !Within(cuts, x);
    }
  }

  lemma {:induction false} FirstChange(all: seq<Op>, a: int, y: int) returns (f: int)
    requires 0 <= a <= y && IsChange(all, y)
    ensures a <= f <= y && IsChange(all, f) && forall x :: a <= x < f ==> all[x].op == Equal
    decreases y - a
  {
    if IsChange(all, a) {
      f := a;
    } else {
      f := FirstChange(all, a + 1, y);
    }
  }

  lemma {:induction false} LastChange(all: seq<Op>, y: int, b: int) returns (l: int)
    requires y <= b < |all| && IsChange(all, y)
    ensures y <= l <= b && IsChange(all, l) && forall x :: l < x <= b ==> all[x].op == Equal
    decreases b - y
  {
    if IsChange(all, b) {
      l := b;
    } else {
      l := LastChange(all, y, b - 1);
    }
  }

  /** A hunk starts with as many equal lines as the context has, or with all there are. */
  lemma ContextFirst(all: seq<Op>, ctx: nat, hunks: seq<Hunk>, cuts: seq<(nat, nat)>, k: nat) returns (f: int)
    requires Stretches(all, ctx, hunks, cuts) && k < |cuts|
    ensures cuts[k].0 <= f < cuts[k].1 && IsChange(all, f)
    ensures (forall x :: cuts[k].0 <= x < f ==> all[x].op == Equal) && f - cuts[k].0 == if f < ctx then f else ctx
  {
    var a: int := cuts[k].0;
    assert Within(cuts, a) && Near(all, ctx, a);
    assert !Within(cuts, a - 1);
    var y :| IsChange(all, y) && a - ctx <= y <= a + ctx;
    assert a <= y by {
      assert y < a ==> Near(all, ctx, a - 1);
    }
    f := FirstChange(all, a, y);
    forall x | a <= x <= f ensures Within(cuts, x) {
      assert Near(all, ctx, x);
    }
    OnePart(all, hunks, cuts, k, a, f);
    assert f - a < ctx && a > 0 ==> Near(all, ctx, a - 1);
  }

  /** It ends with as many, or with all there are. */
  lemma ContextLast(all: seq<Op>, ctx: nat, hunks: seq<Hunk>, cuts: seq<(nat, nat)>, k: nat) returns (l: int)
    requires Stretches(all, ctx, hunks, cuts) && k < |cuts|
    ensures cuts[k].0 <= l < cuts[k].1 && IsChange(all, l) && forall x :: l < x < cuts[k].1 ==> all[x].op == Equal
    ensures cuts[k].1 - 1 - l == if |all| - 1 - l < ctx then |all| - 1 - l else ctx
  {
    var b: int := cuts[k].1 - 1;
    assert Within(cuts, b) && Near(all, ctx, b);
    assert !Within(cuts, b + 1);
    var y :| IsChange(all, y) && b - ctx <= y <= b + ctx;
    assert y <= b by {
      assert y > b ==> Near(all, ctx, b + 1);
    }
    l := LastChange(all, y, b);
    forall x | l <= x <= b ensures Within(cuts, x) {
      assert Near(all, ctx, x);
    }
    assert Within(cuts, l);
    var k' :| 0 <= k' < |cuts| && cuts[k'].0 <= l < cuts[k'].1;
    OnePart(all, hunks, cuts, k', l, b);
    assert b - l < ctx && b + 1 < |all| ==> Near(all, ctx, b + 1);
  }

  /** Two equal chunks in a row are counted one by one, so a hunk may get too much context. */
  lemma TwoEqualChunks()
    ensures var chunks := [Chunk(Delete, ["a"]), Chunk(Equal, ["b"]), Chunk(Equal, ["c"])];
            && Tidy(chunks) && |Generated(chunks, 1)| == 1
            && |Generated(chunks, 1)[0].ops| == 3 && !Near(AllOps(chunks), 1, 2)
  {
    hide StartLines, AllOps, Near;
    var chunks := [Chunk(Delete, ["a"]), Chunk(Equal, ["b"]), Chunk(Equal, ["c"])];
    var h0 := OpenTurn(chunks, 1, 0, Gen(0, 0, [], None, []));
    var h1 := AddOp(h0, Delete, ["a"]);
    var h2 := AddOp(h1, Equal, ["b"]);
    assert Turns(chunks, 1, 1) == Gen(1, 0, [], Some(h1), []);
    assert Turns(chunks, 1, 2) == Gen(2, 1, [], Some(h2), []);
    assert ["c"][..1] == ["c"];
    assert Turns(chunks, 1, 3) == Gen(3, 2, [AddOp(h2, Equal, ["c"])], None, []);
    LinesOfThree();
  }

  lemma LinesOfThree()
    ensures !Near(AllOps([Chunk(Delete, ["a"]), Chunk(Equal, ["b"]), Chunk(Equal, ["c"])]), 1, 2)
  {
    var chunks := [Chunk(Delete, ["a"]), Chunk(Equal, ["b"]), Chunk(Equal, ["c"])];
    assert chunks[..3] == chunks && chunks[..0] == [];
    AllOpsNext(chunks, 0);
    AllOpsNext(chunks, 1);
    AllOpsNext(chunks, 2);
  }

  // --- The generator ------------------------------------------------------------------------

  class HunksGenerator {
    const chunks: seq<Chunk>
    const ctxLines: nat
    var fromLine: int
    var toLine: int
    var current: Option<Hunk>
    var hunks: seq<Hunk>
    var beforeContext: seq<string>
    var afterContext: seq<string>

    ghost function S(): Gen
      reads this
    {
      Gen(fromLine, toLine, hunks, current, beforeContext)
    }

    constructor (chunks: seq<Chunk>, ctxLines: nat)
      ensures this.chunks == chunks && this.ctxLines == ctxLines
      ensures S() == Gen(0, 0, [], None, []) && afterContext == []
    {
      this.chunks, this.ctxLines := chunks, ctxLines;
      fromLine, toLine, current, hunks, beforeContext, afterContext := 0, 0, None, [], [], [];
    }

    method ProcessHunk(i: nat)
      requires i < |chunks| && chunks[i].op != Equal
      modifies this
      ensures S() == OpenHunk(chunks, ctxLines, i, old(S())) && afterContext == old(afterContext)
    {
      if current.Some? {
        return;
      }
      var linesBefore := |beforeContext|;
      if linesBefore > ctxLines {
        beforeContext := beforeContext[linesBefore - ctxLines..];
        linesBefore := ctxLines;
      }
      var h := AddOp(Hunk(0, 0, 0, 0, []), Equal, beforeContext);
      if chunks[i].op == Delete {
        var (f, t) := LineNumbers(chunks, ctxLines, fromLine, toLine, linesBefore, i, Add);
        h := h.(fromLine := f, toLine := t);
      } else {
        var (t, f) := LineNumbers(chunks, ctxLines, toLine, fromLine, linesBefore, i, Delete);
        h := h.(fromLine := f, toLine := t);
      }
      current := Some(h);
      beforeContext := [];
    }

    method ProcessEqualsLines(i: nat)
      requires i < |chunks| && afterContext == []
      modifies this
      ensures S() == EqualLines(chunks, ctxLines, i, old(S())) && afterContext == []
    {
      var lines := chunks[i].lines;
      if current.None? {
        beforeContext := beforeContext + lines;
        return;
      }
      afterContext := afterContext + lines;
      assert afterContext == lines;
      if |afterContext| <= ctxLines * 2 && i != |chunks| - 1 {
        current := Some(AddOp(current.value, Equal, afterContext));
        afterContext := [];
      } else {
        var k := if ctxLines > |afterContext| then |afterContext| else ctxLines;
        hunks := hunks + [AddOp(current.value, Equal, afterContext[..k])];
        current := None;
        beforeContext := afterContext[k..];
        afterContext := [];
      }
    }

    /** One chunk. */
    method ProcessChunk(i: nat)
      requires i < |chunks| && afterContext == []
      modifies this
      ensures S() == Turn(chunks, ctxLines, i, old(S())) && afterContext == []
    {
      hide AddOp, StartLines;
      var n := |chunks[i].lines|;
      match chunks[i].op {
        case Equal =>
          fromLine, toLine := fromLine + n, toLine + n;
          ProcessEqualsLines(i);
        case Delete =>
          if n != 0 {
            fromLine := fromLine + 1;
          }
          ProcessHunk(i);
          fromLine := fromLine + n - 1;
          current := Some(AddOp(current.value, Delete, chunks[i].lines));
        case Add =>
          if n != 0 {
            toLine := toLine + 1;
          }
          ProcessHunk(i);
          toLine := toLine + n - 1;
          current := Some(AddOp(current.value, Add, chunks[i].lines));
      }
    }

    /** `Generate`: the hunks of the diff, which form a patch from its old lines to its new
        ones. */
    method Generate() returns (result: seq<Hunk>)
      requires S() == Gen(0, 0, [], None, []) && afterContext == []
      modifies this
      ensures result == Generated(chunks, ctxLines)
      ensures Tidy(chunks) ==>
                Apply(FromLines(chunks), result) == if Numberable(chunks, ctxLines) then Some(ToLines(chunks)) else None
      ensures NoneEmpty(chunks) ==>
                ((exists cuts :: Stretches(AllOps(chunks), ctxLines, result, cuts))
                 <==> forall i :: !Overlong(chunks, ctxLines, i))
    {
      hide Turn, Apply, Side, Numberable, Stretches, Overlong;
      for i := 0 to |chunks|
        invariant afterContext == []
        invariant i < |chunks| || chunks == [] ==> S() == Turns(chunks, ctxLines, i)
        invariant i == |chunks| ==> hunks == Generated(chunks, ctxLines)
      {
        ProcessChunk(i);
        if i == |chunks| - 1 && current.Some? {
          hunks := hunks + [current.value];
        }
      }
      if Tidy(chunks) {
        PatchApplies(chunks, ctxLines);
      }
      if NoneEmpty(chunks) {
        HunksAreStretches(chunks, ctxLines);
      }
      return hunks;
    }
  }
}
