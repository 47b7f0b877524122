/** How alike two paths are: their directories from both ends and their file names from the
    back, as a percentage. */
module NameSimilarity {
  import SimilarityIndex
  import SimilarityScore

  /** Length of the directory part, with its slash. */
  function DirLen(s: string): (n: nat)
    ensures n <= |s|
  {
    if s == [] then 0 else if s[|s| - 1] == '/' then |s| else DirLen(s[..|s| - 1])
  }

  function Dir(s: string): string { s[..DirLen(s)] }

  function File(s: string): string { s[DirLen(s)..] }

  /** How many characters agree from the front, and from the back. */
  function Ahead(a: string, b: string): (n: nat)
    ensures n <= |a| && n <= |b|
  {
    if a == [] || b == [] || a[0] != b[0] then 0 else 1 + Ahead(a[1..], b[1..])
  }

  function Behind(a: string, b: string): (n: nat)
    ensures n <= |a| && n <= |b|
  {
    if a == [] || b == [] || a[|a| - 1] != b[|b| - 1] then 0 else 1 + Behind(a[..|a| - 1], b[..|b| - 1])
  }

  function Max(a: nat, b: nat): nat { if a > b then a else b }

  /** `part` of `whole` in percent; all of nothing is everything. */
  function Percent(part: nat, whole: nat): nat {
    if whole == 0 then 100 else part * 100 / whole
  }

  function Score(a: string, b: string): nat {
    var (da, db, fa, fb) := (Dir(a), Dir(b), File(a), File(b));
    ((Percent(Ahead(da, db), Max(|da|, |db|)) + Percent(Behind(da, db), Max(|da|, |db|))) * 25
     + Percent(Behind(fa, fb), Max(|fa|, |fb|)) * 50) / 100
  }

  lemma {:induction false} AheadSame(a: string, b: string)
    ensures Ahead(a, b) == Ahead(b, a)
    ensures Ahead(a, b) == Max(|a|, |b|) <==> a == b
  {
    if a != [] && b != [] && a[0] == b[0] {
      AheadSame(a[1..], b[1..]);
      assert a == [a[0]] + a[1..] && b == [b[0]] + b[1..];
    }
  }

  lemma {:induction false} BehindSame(a: string, b: string)
    ensures Behind(a, b) == Behind(b, a)
    ensures Behind(a, b) == Max(|a|, |b|) <==> a == b
  {
    if a != [] && b != [] && a[|a| - 1] == b[|b| - 1] {
      BehindSame(a[..|a| - 1], b[..|b| - 1]);
      assert a == a[..|a| - 1] + [a[|a| - 1]] && b == b[..|b| - 1] + [b[|b| - 1]];
    }
  }

  lemma PercentFull(part: nat, whole: nat)
    requires part <= whole
    ensures Percent(part, whole) <= 100
    ensures Percent(part, whole) == 100 <==> part == whole
  {
    if whole > 0 {
      SimilarityScore.FractionAtMost(part, 100, whole);
      var q := part * 100 / whole;
      assert whole * q <= part * 100;
      if part < whole {
        SimilarityIndex.PositiveFactor(100 - q, whole) by {
          assert (100 - q) * whole == 100 * whole - whole * q;
        }
      }
    }
  }

  /** A percentage, the same both ways, and full for one path only. */
  lemma ScoreMeans(a: string, b: string)
    ensures Score(a, b) == Score(b, a) <= 100
    ensures Score(a, b) == 100 <==> a == b
  {
    hide Ahead, Behind, DirLen, Percent;
    var (da, db, fa, fb) := (Dir(a), Dir(b), File(a), File(b));
    AheadSame(da, db);
    BehindSame(da, db);
    BehindSame(fa, fb);
    PercentFull(Ahead(da, db), Max(|da|, |db|));
    PercentFull(Behind(da, db), Max(|da|, |db|));
    PercentFull(Behind(fa, fb), Max(|fa|, |fb|));
    assert a == da + fa && b == db + fb;
  }

  /** The last `n` characters of both agree. */
  ghost predicate AgreeBehind(a: string, b: string, n: nat) {
    n <= |a| && n <= |b| && a[|a| - n..] == b[|b| - n..]
  }

  lemma AgreeOneMore(a: string, b: string, n: nat)
    requires AgreeBehind(a, b, n) && n < |a| && n < |b| && a[|a| - 1 - n] == b[|b| - 1 - n]
    ensures AgreeBehind(a, b, n + 1)
  {
    assert a[|a| - (n + 1)..] == [a[|a| - 1 - n]] + a[|a| - n..];
    assert b[|b| - (n + 1)..] == [b[|b| - 1 - n]] + b[|b| - n..];
  }

  lemma AgreeWithoutLast(a: string, b: string, n: nat)
    requires AgreeBehind(a, b, n) && n > 0
    ensures a[|a| - 1] == b[|b| - 1] && AgreeBehind(a[..|a| - 1], b[..|b| - 1], n - 1)
  {
    assert a[|a| - 1] == a[|a| - n..][n - 1] && b[|b| - 1] == b[|b| - n..][n - 1];
    assert a[..|a| - 1][|a| - n..] == a[|a| - n..][..n - 1];
    assert b[..|b| - 1][|b| - n..] == b[|b| - n..][..n - 1];
  }

  lemma {:induction false} BehindIs(a: string, b: string, n: nat)
    requires AgreeBehind(a, b, n) && n <= |a| && n <= |b|
    requires n == |a| || n == |b| || a[|a| - 1 - n] != b[|b| - 1 - n]
    ensures Behind(a, b) == n
  {
    hide AgreeBehind;
    if n > 0 {
      AgreeWithoutLast(a, b, n);
      BehindIs(a[..|a| - 1], b[..|b| - 1], n - 1);
    }
  }

  lemma {:induction false} AheadIs(a: string, b: string, n: nat)
    requires n <= |a| && n <= |b| && a[..n] == b[..n]
    requires n == |a| || n == |b| || a[n] != b[n]
    ensures Ahead(a, b) == n
  {
    if n > 0 {
      assert a[0] == a[..n][0] == b[..n][0] == b[0];
      assert a[1..][..n - 1] == a[..n][1..] && b[1..][..n - 1] == b[..n][1..];
      AheadIs(a[1..], b[1..], n - 1);
    }
  }

  // --- What the parts contribute --------------------------------------------------------------

  /** The path is a directory, empty or with its slash, and a file name without one. */
  ghost predicate Splits(s: string, dir: string, file: string) {
    s == dir + file && (dir == [] || dir[|dir| - 1] == '/') && '/' !in file
  }

  /** Exactly the first, or the last, `n` characters of both agree. */
  ghost predicate SameAhead(a: string, b: string, n: nat) {
    n <= |a| && n <= |b| && a[..n] == b[..n] && (n == |a| || n == |b| || a[n] != b[n])
  }

  ghost predicate SameBehind(a: string, b: string, n: nat) {
    AgreeBehind(a, b, n) && (n == |a| || n == |b| || a[|a| - 1 - n] != b[|b| - 1 - n])
  }

  lemma {:induction false} SameCounts(a: string, b: string, n: nat, m: nat)
    requires SameAhead(a, b, n) && SameBehind(a, b, m)
    ensures Ahead(a, b) == n && Behind(a, b) == m
  {
    AheadIs(a, b, n);
    BehindIs(a, b, m);
  }

  /** `p` is `part` of `whole` in percent, rounded down. */
  ghost predicate IsPercent(p: nat, part: nat, whole: nat) {
    if whole == 0 then p == 100 else p * whole <= part * 100 < (p + 1) * whole
  }

  lemma {:induction false} SplitIs(s: string, dir: string, file: string)
    requires Splits(s, dir, file)
    ensures Dir(s) == dir && File(s) == file
  {
    if file == [] {
      assert s == dir;
    } else {
      var n := |file| - 1;
      assert file[n] in file;
      assert forall c :: c in file[..n] ==> c in file;
      assert s[..|s| - 1] == dir + file[..n];
      SplitIs(s[..|s| - 1], dir, file[..n]);
    }
  }

  lemma {:induction false} SameLast(a: string, b: string, n: nat)
    requires SameBehind(a, b, n)
    ensures Behind(a, b) == n
  {
    BehindIs(a, b, n);
  }

  lemma PercentIs(p: nat, part: nat, whole: nat)
    requires IsPercent(p, part, whole)
    ensures Percent(part, whole) == p
  {
    if whole > 0 {
      FloorIs(part * 100, whole, p);
    }
  }

  lemma FloorIs(x: nat, y: nat, p: nat)
    requires y > 0 && p * y <= x < (p + 1) * y
    ensures x / y == p
  {
    SimilarityScore.Floor(x, y);
    Grows(p + 1, x / y, y);
    Grows(x / y + 1, p, y);
  }

  lemma Grows(a: nat, b: nat, y: nat)
    ensures a <= b ==> a * y <= b * y
  {
    if a <= b {
      assert b * y == a * y + (b - a) * y;
    }
  }

  /** The characters in which the directories agree from the front, and from the back, count 25 each
      of a hundred, and those in which the file names agree from the back count 50; each in percent
      of the longer one. */
  lemma ScoreParts(a: string, b: string, da: string, db: string, fa: string, fb: string, n: nat, m: nat, k: nat,
                   p: nat, q: nat, r: nat)
    requires Splits(a, da, fa) && Splits(b, db, fb)
    requires SameAhead(da, db, n) && SameBehind(da, db, m) && SameBehind(fa, fb, k)
    requires IsPercent(p, n, Max(|da|, |db|)) && IsPercent(q, m, Max(|da|, |db|)) && IsPercent(r, k, Max(|fa|, |fb|))
    ensures Score(a, b) == (25 * p + 25 * q + 50 * r) / 100
  {
    hide DirLen, Percent, IsPercent, SameAhead, SameBehind, Splits, Dir, File, Ahead, Behind;
    SplitIs(a, da, fa);
    SplitIs(b, db, fb);
    SameCounts(da, db, n, m);
    SameLast(fa, fb, k);
    PercentIs(p, n, Max(|da|, |db|));
    PercentIs(q, m, Max(|da|, |db|));
    PercentIs(r, k, Max(|fa|, |fb|));
  }

  /** `strings.LastIndexByte(s, '/') + 1`. */
  method LastSlash(s: string) returns (n: nat)
    ensures n == DirLen(s)
  {
    n := |s|;
    assert s[..n] == s;
    while n > 0 && s[n - 1] != '/'
      invariant n <= |s| && DirLen(s) == DirLen(s[..n])
    {
      assert s[..n][..n - 1] == s[..n - 1];
      n := n - 1;
    }
  }

  method AgreeingBehind(a: string, b: string) returns (n: nat)
    ensures n == Behind(a, b)
  {
    n := 0;
    while n < |a| && n < |b| && a[|a| - 1 - n] == b[|b| - 1 - n]
      invariant AgreeBehind(a, b, n)
    {
      AgreeOneMore(a, b, n);
      n := n + 1;
    }
    BehindIs(a, b, n);
  }

  method AgreeingAhead(a: string, b: string) returns (n: nat)
    ensures n == Ahead(a, b)
  {
    n := 0;
    while n < |a| && n < |b| && a[n] == b[n]
      invariant n <= |a| && n <= |b| && a[..n] == b[..n]
    {
      n := n + 1;
    }
    AheadIs(a, b, n);
  }

  /** `nameSimilarityScore`.  Two paths that both end in a slash would divide by zero. */
  method NameSimilarityScore(a: string, b: string) returns (score: nat)
    requires File(a) != [] || File(b) != []
    ensures score == Score(a, b)
  {
    hide Ahead, Behind, DirLen, Percent;
    var aDirLen := LastSlash(a);
    var bDirLen := LastSlash(b);
    var aDir, bDir, aFile, bFile := a[..aDirLen], b[..bDirLen], a[aDirLen..], b[bDirLen..];
    var dirMax := Max(aDirLen, bDirLen);
    PercentFull(dirMax, dirMax);
    var dirScoreLtr, dirScoreRtl := 100, 100;
    if dirMax != 0 {
      var dirSim := AgreeingAhead(aDir, bDir);
      dirScoreLtr := Percent(dirSim, dirMax);
      if dirScoreLtr == 100 {
        PercentFull(dirSim, dirMax);
        AheadSame(aDir, bDir);
        BehindSame(aDir, bDir);
      } else {
        dirSim := AgreeingBehind(aDir, bDir);
        dirScoreRtl := Percent(dirSim, dirMax);
      }
    }
    var fileSim := AgreeingBehind(aFile, bFile);
    var fileScore := Percent(fileSim, Max(|aFile|, |bFile|));
    score := ((dirScoreLtr + dirScoreRtl) * 25 + fileScore * 50) / 100;
  }
}
