/** Lexicographic order: of strings by their characters, and of paths by their names. */
module Ordering {

  type Path = seq<string>

  /** `strings.Compare(a, b) < 0`. */
  predicate Below(a: string, b: string) {
    b != [] && (a == [] || a[0] < b[0] || (a[0] == b[0] && Below(a[1..], b[1..])))
  }

  lemma {:induction false} BelowIrreflexive(a: string)
    ensures !Below(a, a)
  {
    if a != [] {
      BelowIrreflexive(a[1..]);
    }
  }

  lemma {:induction false} BelowTransitive(a: string, b: string, c: string)
    requires Below(a, b) && Below(b, c)
    ensures Below(a, c)
  {
    if a != [] && a[0] == b[0] == c[0] {
      BelowTransitive(a[1..], b[1..], c[1..]);
    }
  }

  lemma {:induction false} BelowTotal(a: string, b: string)
    ensures a == b || Below(a, b) || Below(b, a)
  {
    if a != [] && b != [] && a[0] == b[0] {
      BelowTotal(a[1..], b[1..]);
      assert a == [a[0]] + a[1..] && b == [b[0]] + b[1..];
    }
  }

  /** A path comes before another one: at the first name that differs, or as a proper prefix. */
  predicate PathBelow(p: Path, q: Path) {
    q != [] && (p == [] || Below(p[0], q[0]) || (p[0] == q[0] && PathBelow(p[1..], q[1..])))
  }

  lemma {:induction false} PathBelowIrreflexive(p: Path)
    ensures !PathBelow(p, p)
  {
    if p != [] {
      BelowIrreflexive(p[0]);
      PathBelowIrreflexive(p[1..]);
    }
  }

  lemma {:induction false} PathBelowTransitive(p: Path, q: Path, r: Path)
    requires PathBelow(p, q) && PathBelow(q, r)
    ensures PathBelow(p, r)
  {
    if p != [] {
      if p[0] == q[0] == r[0] && !Below(p[0], q[0]) && !Below(q[0], r[0]) {
        PathBelowTransitive(p[1..], q[1..], r[1..]);
      } else if Below(p[0], q[0]) && Below(q[0], r[0]) {
        BelowTransitive(p[0], q[0], r[0]);
      }
    }
  }

  lemma {:induction false} PathBelowTotal(p: Path, q: Path)
    ensures p == q || PathBelow(p, q) || PathBelow(q, p)
  {
    if p != [] && q != [] {
      BelowTotal(p[0], q[0]);
      if p[0] == q[0] {
        PathBelowTotal(p[1..], q[1..]);
        assert p == [p[0]] + p[1..] && q == [q[0]] + q[1..];
      }
    }
  }

  /** `p` and `q` share their first `i` names, and then `p` has the smaller one. */
  ghost predicate ForksBelow(p: Path, q: Path, i: nat) {
    i < |p| && i < |q| && p[..i] == q[..i] && Below(p[i], q[i])
  }

  lemma {:induction false} ForkIsBelow(p: Path, q: Path, i: nat)
    requires ForksBelow(p, q, i)
    ensures PathBelow(p, q)
  {
    if i > 0 {
      assert p[0] == p[..i][0] == q[..i][0] == q[0];
      assert p[1..][..i - 1] == p[..i][1..] && q[1..][..i - 1] == q[..i][1..];
      ForkIsBelow(p[1..], q[1..], i - 1);
    }
  }

  lemma {:induction false} PrefixIsBelow(p: Path, q: Path)
    requires p <= q && p != q
    ensures PathBelow(p, q)
  {
    if p != [] {
      assert p[0] == q[0] && p[1..] <= q[1..];
      assert p == [p[0]] + p[1..] && q == [q[0]] + q[1..];
      PrefixIsBelow(p[1..], q[1..]);
    }
  }

  /** A smaller path that is not a prefix forks off. */
  lemma {:induction false} BelowForks(p: Path, q: Path) returns (i: nat)
    requires PathBelow(p, q) && !(p <= q)
    ensures ForksBelow(p, q, i)
  {
    if Below(p[0], q[0]) {
      i := 0;
    } else {
      assert p == [p[0]] + p[1..] && q == [q[0]] + q[1..];
      assert !(p[1..] <= q[1..]);
      i := BelowForks(p[1..], q[1..]);
      assert p[..i + 1] == [p[0]] + p[1..][..i] && q[..i + 1] == [q[0]] + q[1..][..i];
      i := i + 1;
    }
  }

  /** Two paths that continue a fork on different sides differ. */
  lemma ForkedApart(p: Path, q: Path, i: nat, p': Path, q': Path)
    requires ForksBelow(p, q, i) && p <= p' && q <= q'
    ensures p' != q'
  {
    assert p'[i] == p[i] && q'[i] == q[i];
    BelowIrreflexive(p[i]);
  }

  /** Forking off above a path that itself forks off above stays above. */
  lemma ForksCompose(p: Path, q: Path, i: nat, r: Path, j: nat) returns (k: nat)
    requires ForksBelow(p, q, i) && ForksBelow(q, r, j)
    ensures ForksBelow(p, r, k)
  {
    if i < j {
      k := i;
      assert r[..i] == r[..j][..i] && q[..i] == q[..j][..i];
      assert q[i] == q[..j][i] && r[i] == r[..j][i];
    } else {
      k := j;
      if i == j {
        BelowTransitive(p[i], q[i], r[i]);
      } else {
        assert p[..j] == p[..i][..j] && q[..j] == q[..i][..j];
        assert p[j] == p[..i][j] && q[j] == q[..i][j];
      }
    }
  }
}
