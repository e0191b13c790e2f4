/** Little-endian words over bytes, as the dump format and its reader spell them. */
module Bytes {

  type Byte = n: int | 0 <= n < 256

  const U16: nat := 0x1_0000
  const U32: nat := 0x1_0000_0000
  const U64: nat := 0x1_0000_0000_0000_0000

  const U32_MAX: nat := U32 - 1
  const U64_MAX: nat := U64 - 1

  type Word = n: int | 0 <= n < 0x1_0000_0000
  type Long = n: int | 0 <= n < 0x1_0000_0000_0000_0000

  function Min(a: nat, b: nat): nat { if a < b then a else b }

  function Max(a: nat, b: nat): nat { if a > b then a else b }

  /** Half of `n`, an odd one's last counted whole. */
  function HalfUp(n: nat): (c: nat)
    ensures 2 * c - 1 <= n <= 2 * c
  {
    (n + 1) / 2
  }

  datatype Option<+T> = None | Some(value: T)

  function Pow256(k: nat): (p: nat)
    ensures p >= 1
  {
    if k == 0 then 1 else 256 * Pow256(k - 1)
  }

  /** The first `k` little-endian bytes of `n`: a cast to a `k`-byte integer, then `to_le_bytes`. */
  function Le(n: nat, k: nat): (s: seq<Byte>)
    ensures |s| == k
  {
    if k == 0 then [] else [n % 256] + Le(n / 256, k - 1)
  }

  function FromLe(s: seq<Byte>): nat {
    if s == [] then 0 else s[0] + 256 * FromLe(s[1..])
  }

  /** Byte `i` is the digit of 256 to the `i`: the least first. */
  lemma {:induction false} LeDigit(n: nat, k: nat, i: nat)
    requires i < k
    ensures Le(n, k)[i] == n / Pow256(i) % 256
  {
    if i > 0 {
      LeDigit(n / 256, k - 1, i - 1);
      DivDiv(n, Pow256(i - 1));
    }
  }

  lemma DivDiv(n: nat, p: nat)
    requires p > 0
    ensures n / 256 / p == n / (256 * p)
  {
    var (q, a) := (n / 256, n / 256 / p);
    assert q == p * a + q % p && n == 256 * q + n % 256;
    DivUnique(n, 256 * p, a, 256 * (q % p) + n % 256);
  }

  lemma DivUnique(x: nat, m: nat, a: nat, c: nat)
    requires x == m * a + c && c < m
    ensures x / m == a
  {
    ModUnique(x, m, a, c);
    assert x == m * (x / m) + x % m;
    assert m * (x / m - a) == m * (x / m) - m * a == 0;
    ProductSign(m, x / m - a);
  }

  lemma ProductSign(m: nat, d: int)
    requires m > 0
    ensures (m * d > 0 <==> d > 0) && (m * d == 0 <==> d == 0)
  {
  }

  lemma Powers()
    ensures Pow256(1) == 256 && Pow256(2) == U16 && Pow256(4) == U32 && Pow256(8) == U64
  {
    assert Pow256(3) == 256 * Pow256(2);
    assert Pow256(5) == 256 * Pow256(4);
    assert Pow256(6) == 256 * Pow256(5);
    assert Pow256(7) == 256 * Pow256(6);
  }

  lemma ModUnique(x: nat, m: nat, a: int, c: nat)
    requires x == m * a + c && c < m
    ensures x % m == c
  {
    var k := x / m - a;
    assert x == m * (x / m) + x % m;
    assert m * k == c - x % m by {
      assert m * (x / m - a) == m * (x / m) - m * a;
    }
  }

  lemma ModStep(n: nat, p: nat)
    requires p > 0
    ensures n % (256 * p) == n % 256 + 256 * (n / 256 % p)
  {
    var r, q := n % 256, n / 256;
    var a, b := q / p, q % p;
    assert q == p * a + b;
    assert n == (256 * p) * a + (256 * b + r);
    ModUnique(n, 256 * p, a, 256 * b + r);
  }

  /** Reading back what was written recovers the value a field of `k` bytes can hold. */
  lemma {:induction false} LeRoundTrip(n: nat, k: nat)
    ensures FromLe(Le(n, k)) == n % Pow256(k)
  {
    if k > 0 {
      assert Le(n, k)[1..] == Le(n / 256, k - 1);
      LeRoundTrip(n / 256, k - 1);
      ModStep(n, Pow256(k - 1));
    }
  }

  /** The field widths the format uses, in the values they hold. */
  lemma FieldRoundTrip(n: nat)
    ensures FromLe(Le(n, 2)) == n % U16
    ensures FromLe(Le(n, 4)) == n % U32
    ensures FromLe(Le(n, 8)) == n % U64
  {
    Powers();
    LeRoundTrip(n, 2);
    LeRoundTrip(n, 4);
    LeRoundTrip(n, 8);
  }

  /** A run of 32-bit words. */
  function WordBytes(ws: seq<Word>): (s: seq<Byte>)
    ensures |s| == 4 * |ws|
  {
    if ws == [] then [] else Le(ws[0], 4) + WordBytes(ws[1..])
  }

  /** The words of a run of bytes; a last one cut short is not read. */
  function ReadWords(s: seq<Byte>): (ws: seq<nat>)
    ensures |ws| == |s| / 4
  {
    if |s| < 4 then [] else [FromLe(s[..4])] + ReadWords(s[4..])
  }

  lemma {:induction false} WordsRoundTrip(ws: seq<Word>)
    ensures ReadWords(WordBytes(ws)) == ws
  {
    hide Le, FromLe;
    if ws != [] {
      var s := WordBytes(ws);
      assert s[..4] == Le(ws[0], 4);
      FieldRoundTrip(ws[0]);
      assert s[4..] == WordBytes(ws[1..]);
      WordsRoundTrip(ws[1..]);
    }
  }

  /** Where the five parts of a concatenation lie in it. */
  lemma Parts<T>(a: seq<T>, b: seq<T>, c: seq<T>, d: seq<T>, rest: seq<T>)
    ensures var s := a + b + c + d + rest;
            var (i, j) := (|a| + |b|, |a| + |b| + |c|);
            && s == a + (b + c + d + rest)
            && s[|a|..i] == b && s[i..j] == c && s[j + |d|..] == rest
  {
  }

  function Zeros(n: nat): (s: seq<Byte>)
    ensures |s| == n
  {
    seq(n, _ => 0)
  }

  /** `b` with `s` written over it from `at`. */
  function Splice(b: seq<Byte>, at: nat, s: seq<Byte>): (r: seq<Byte>)
    requires at + |s| <= |b|
    ensures |r| == |b|
  {
    b[..at] + s + b[at + |s|..]
  }

  lemma Grouped<T>(a: seq<T>, b: seq<T>, c: seq<T>)
    ensures a + b + c == a + (b + c)
  {
  }
}
