/** Bytes, big-endian numbers, and a reader over a string of bytes. */
module Bytes {
  import opened Sequences

  type Byte = b: int | 0 <= b < 256

  type Bytes = seq<Byte>

  const U32_LIMIT := 0x1_0000_0000
  const U64_LIMIT := 0x1_0000_0000_0000_0000
  const MSB32 := 0x8000_0000

  function Pow256(n: nat): (r: nat)
    ensures r > 0
  {
    if n == 0 then 1 else 256 * Pow256(n - 1)
  }

  /** The number that `s` spells, and the other way around in `width` bytes. */
  function Number(s: Bytes): nat {
    if s == [] then 0 else Number(s[..|s| - 1]) * 256 + s[|s| - 1]
  }

  function Spelled(n: nat, width: nat): (s: Bytes)
    ensures |s| == width
  {
    if width == 0 then [] else Spelled(n / 256, width - 1) + [n % 256]
  }

  lemma {:induction false} NumberSpelled(n: nat, width: nat)
    requires n < Pow256(width)
    ensures Number(Spelled(n, width)) == n
  {
    if width > 0 {
      NumberSpelled(n / 256, width - 1);
      assert Spelled(n, width)[..width - 1] == Spelled(n / 256, width - 1);
    }
  }

  lemma {:induction false} SpelledNumber(s: Bytes)
    ensures Spelled(Number(s), |s|) == s && Number(s) < Pow256(|s|)
  {
    if s != [] {
      SpelledNumber(s[..|s| - 1]);
      assert s == s[..|s| - 1] + [s[|s| - 1]];
    }
  }

  lemma Widths()
    ensures Pow256(4) == U32_LIMIT && Pow256(8) == U64_LIMIT
  {
    assert Pow256(1) == 0x100 && Pow256(2) == 0x1_0000;
    assert Pow256(3) == 0x100_0000 && Pow256(5) == 256 * U32_LIMIT && Pow256(6) == 0x1_0000 * U32_LIMIT;
  }

  function U32(n: nat): (s: Bytes)
    requires n < U32_LIMIT
    ensures |s| == 4
  {
    Spelled(n, 4)
  }

  function U64(n: nat): (s: Bytes)
    requires n < U64_LIMIT
    ensures |s| == 8
  {
    Spelled(n, 8)
  }

  function Get32(s: Bytes): (n: nat)
    requires |s| == 4
    ensures n < U32_LIMIT
  {
    SpelledNumber(s);
    Widths();
    Number(s)
  }

  function Get64(s: Bytes): (n: nat)
    requires |s| == 8
    ensures n < U64_LIMIT
  {
    SpelledNumber(s);
    Widths();
    Number(s)
  }

  /** A word of 64 bits as a number with a sign. */
  function ToInt64(n: nat): (r: int)
    requires n < U64_LIMIT
    ensures -0x8000_0000_0000_0000 <= r < 0x8000_0000_0000_0000 && (r == n || r == n - 0x1_0000_0000_0000_0000)
  {
    if n < U64_LIMIT / 2 then n else n - U64_LIMIT
  }

  /** Numbers are written with the highest byte first. */
  lemma WordBytes(a: Byte, b: Byte, c: Byte, d: Byte)
    ensures ((a * 256 + b) * 256 + c) * 256 + d < U32_LIMIT
    ensures U32(((a * 256 + b) * 256 + c) * 256 + d) == [a, b, c, d]
  {
    var n1 := a * 256 + b;
    var n2 := n1 * 256 + c;
    assert (n2 * 256 + d) / 256 == n2 && (n2 * 256 + d) % 256 == d;
    assert n2 / 256 == n1 && n2 % 256 == c;
    assert n1 / 256 == a && n1 % 256 == b;
    assert Spelled(a, 1) == [a];
    assert Spelled(n1, 2) == [a, b];
    assert Spelled(n2, 3) == [a, b, c];
  }

  lemma Get32U32(n: nat)
    requires n < U32_LIMIT
    ensures Get32(U32(n)) == n
  {
    Widths();
    NumberSpelled(n, 4);
  }

  lemma U32Get32(s: Bytes)
    requires |s| == 4
    ensures U32(Get32(s)) == s
  {
    SpelledNumber(s);
  }

  lemma Get64U64(n: nat)
    requires n < U64_LIMIT
    ensures Get64(U64(n)) == n
  {
    Widths();
    NumberSpelled(n, 8);
  }

  // --- Pieces ---------------------------------------------------------------------------------

  lemma Joined(data: Bytes, a: nat, b: nat, c: nat)
    requires a <= b <= c <= |data|
    ensures data[a..c] == data[a..b] + data[b..c]
  {
  }

  lemma SameParts(a: Bytes, b: Bytes, c: Bytes, d: Bytes)
    requires a + b == c + d && |a| == |c|
    ensures a == c && b == d
  {
    assert a == (a + b)[..|a|] && c == (c + d)[..|c|];
    assert b == (a + b)[|a|..] && d == (c + d)[|c|..];
  }

  lemma {:induction false} FlatPrefix(s: seq<Bytes>, j: nat)
    requires j <= |s|
    ensures Flat(s[..j]) <= Flat(s)
  {
    if j == |s| {
      assert s[..j] == s;
    } else {
      FlatPrefix(s[..|s| - 1], j);
      assert s[..|s| - 1][..j] == s[..j];
    }
  }

  /** In a table of rows of `w` bytes, row `i` starts at `w * i`. */
  lemma {:induction false} FlatRows(rows: seq<Bytes>, w: nat, i: nat)
    requires i <= |rows| && forall k :: 0 <= k < |rows| ==> |rows[k]| == w
    ensures |Flat(rows[..i])| == w * i
  {
    if i > 0 {
      FlatRows(rows, w, i - 1);
      assert rows[..i] == rows[..i - 1] + [rows[i - 1]];
      FlatPush(rows[..i - 1], rows[i - 1]);
      assert w * i == w * (i - 1) + w;
    }
  }

  lemma {:induction false} FlatSize(rows: seq<Bytes>, w: nat)
    requires forall k :: 0 <= k < |rows| ==> |rows[k]| == w
    ensures |Flat(rows)| == w * |rows|
  {
    FlatRows(rows, w, |rows|);
    assert rows[..|rows|] == rows;
  }

  lemma {:induction false} RowAt(rows: seq<Bytes>, w: nat, i: nat)
    requires i < |rows| && forall k :: 0 <= k < |rows| ==> |rows[k]| == w
    ensures 0 <= w * i <= w * i + w <= |Flat(rows)| && Flat(rows)[w * i..w * i + w] == rows[i]
  {
    hide Flat;
    FlatRows(rows, w, i);
    assert rows[..i + 1] == rows[..i] + [rows[i]];
    FlatPush(rows[..i], rows[i]);
    FlatPrefix(rows, i + 1);
    var a, b := Flat(rows[..i]), rows[i];
    assert Flat(rows)[..|a + b|] == a + b;
    assert (a + b)[|a|..] == b;
    assert Flat(rows)[|a|..|a + b|] == Flat(rows)[..|a + b|][|a|..];
  }

  // --- Order ----------------------------------------------------------------------------------

  predicate Before(a: Bytes, b: Bytes) {
    b != [] && (a == [] || a[0] < b[0] || (a[0] == b[0] && Before(a[1..], b[1..])))
  }

  lemma {:induction false} BeforeOrder(a: Bytes, b: Bytes)
    ensures Before(a, b) ==> a != b && !Before(b, a)
    ensures a != b ==> Before(a, b) || Before(b, a)
  {
    if a != [] && b != [] && a[0] == b[0] {
      BeforeOrder(a[1..], b[1..]);
      assert a == [a[0]] + a[1..] && b == [b[0]] + b[1..];
    }
  }

  lemma {:induction false} BeforeTransitive(a: Bytes, b: Bytes, c: Bytes)
    requires Before(a, b) && Before(b, c)
    ensures Before(a, c)
  {
    if a != [] && a[0] == b[0] == c[0] {
      BeforeTransitive(a[1..], b[1..], c[1..]);
    }
  }

  /** `io.ReadFull` over bytes that are already there. */
  class Reader {
    const data: Bytes
    var pos: nat

    ghost predicate Valid()
      reads this
    {
      pos <= |data|
    }

    constructor (data: Bytes)
      ensures Valid() && this.data == data && pos == 0
    {
      this.data, pos := data, 0;
    }

    method ReadFull(n: nat) returns (ok: bool, s: Bytes)
      requires Valid()
      modifies this
      ensures Valid() && (ok <==> old(pos) + n <= |data|)
      ensures ok ==> pos == old(pos) + n && s == data[old(pos)..pos]
    {
      if pos + n > |data| {
        return false, [];
      }
      s := data[pos..pos + n];
      pos := pos + n;
      return true, s;
    }
  }
}
