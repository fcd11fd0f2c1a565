/** Bytes and the two integer byte orders shared by the codecs
    (libutilities/DataConvertUtility.h). */
module Bytes {

  type Byte = b: int | 0 <= b < 256
  type Bytes = seq<Byte>

  /** The number of different byte strings of length `n`. */
  function Pow256(n: nat): (r: nat)
    ensures r >= 1
  {
    if n == 0 then 1 else 256 * Pow256(n - 1)
  }

  lemma Pow256Add(m: nat, n: nat)
    ensures Pow256(m + n) == Pow256(m) * Pow256(n)
  {
    if m > 0 {
      Pow256Add(m - 1, n);
    }
  }

  lemma Pow256Mono(m: nat, n: nat)
    requires m <= n
    ensures Pow256(m) <= Pow256(n)
  {
    if m < n {
      Pow256Mono(m, n - 1);
    }
  }

  // Two to the power 8n, as the literals the source uses.
  const TWO64: int := 0x1_0000_0000_0000_0000
  const TWO256: int := TWO64 * TWO64 * TWO64 * TWO64

  lemma Pow256Small()
    ensures Pow256(1) == 0x100 && Pow256(2) == 0x1_0000
    ensures Pow256(3) == 0x100_0000 && Pow256(4) == 0x1_0000_0000
  {
  }

  lemma Pow256Wide()
    ensures Pow256(8) == TWO64
    ensures Pow256(32) == TWO256
  {
    Pow256Small();
    Pow256Add(4, 4);
    Pow256Add(8, 8);
    Pow256Add(16, 16);
  }

  // ---- Little endian ----

  /** The low `n` bytes of `v`, least significant first. */
  function LeBytes(v: nat, n: nat): (s: Bytes)
    ensures |s| == n
  {
    if n == 0 then [] else [v % 256] + LeBytes(v / 256, n - 1)
  }

  function LeValue(s: Bytes): nat {
    if s == [] then 0 else s[0] + 256 * LeValue(s[1..])
  }

  lemma {:induction false} LeValueBound(s: Bytes)
    ensures LeValue(s) < Pow256(|s|)
  {
    if s != [] {
      LeValueBound(s[1..]);
    }
  }

  lemma {:induction false} LeValueOfBytes(v: nat, n: nat)
    requires v < Pow256(n)
    ensures LeValue(LeBytes(v, n)) == v
  {
    if n > 0 {
      LeValueOfBytes(v / 256, n - 1);
      assert LeBytes(v, n)[1..] == LeBytes(v / 256, n - 1);
    }
  }

  lemma {:induction false} LeBytesOfValue(s: Bytes)
    ensures LeBytes(LeValue(s), |s|) == s
  {
    if s != [] {
      LeBytesOfValue(s[1..]);
      assert LeValue(s) % 256 == s[0] && LeValue(s) / 256 == LeValue(s[1..]);
      assert s == [s[0]] + s[1..];
    }
  }

  lemma {:induction false} LeValueAppend(s: Bytes, b: Byte)
    ensures LeValue(s + [b]) == LeValue(s) + Pow256(|s|) * b
  {
    if s == [] {
      assert LeValue([b]) == b + 256 * LeValue([]);
    } else {
      assert (s + [b])[1..] == s[1..] + [b];
      LeValueAppend(s[1..], b);
      assert Pow256(|s|) * b == 256 * (Pow256(|s| - 1) * b);
    }
  }

  /** Byte `i` is the digit of 256^i. */
  lemma {:induction false} LeDigit(v: nat, n: nat, i: nat)
    requires i < n
    ensures LeBytes(v, n)[i] == v / Pow256(i) % 256
  {
    if i > 0 {
      LeDigit(v / 256, n - 1, i - 1);
      ShiftMod(v, Pow256(i - 1));
    }
  }

  // ---- Big endian ----

  /** The low `n` bytes of `v`, most significant first. */
  function BeBytes(v: nat, n: nat): (s: Bytes)
    ensures |s| == n
  {
    if n == 0 then [] else BeBytes(v / 256, n - 1) + [v % 256]
  }

  function BeValue(s: Bytes): nat {
    if s == [] then 0 else 256 * BeValue(s[..|s| - 1]) + s[|s| - 1]
  }

  lemma {:induction false} BeValueBound(s: Bytes)
    ensures BeValue(s) < Pow256(|s|)
  {
    if s != [] {
      BeValueBound(s[..|s| - 1]);
    }
  }

  lemma {:induction false} BeValueOfBytes(v: nat, n: nat)
    requires v < Pow256(n)
    ensures BeValue(BeBytes(v, n)) == v
  {
    if n > 0 {
      BeValueOfBytes(v / 256, n - 1);
      assert BeBytes(v, n)[..n - 1] == BeBytes(v / 256, n - 1);
    }
  }

  lemma {:induction false} BeBytesOfValue(s: Bytes)
    ensures BeBytes(BeValue(s), |s|) == s
  {
    if s != [] {
      BeBytesOfValue(s[..|s| - 1]);
      assert BeValue(s) % 256 == s[|s| - 1] && BeValue(s) / 256 == BeValue(s[..|s| - 1]);
      assert s == s[..|s| - 1] + [s[|s| - 1]];
    }
  }

  lemma {:induction false} BeBytesMod(v: nat, n: nat)
    ensures BeBytes(v % Pow256(n), n) == BeBytes(v, n)
  {
    if n > 0 {
      ShiftMod(v, Pow256(n - 1));
      BeBytesMod(v / 256, n - 1);
    }
  }

  lemma ShiftMod(v: nat, p: nat)
    requires p > 0
    ensures (v % (256 * p)) / 256 == (v / 256) % p && (v % (256 * p)) % 256 == v % 256
    ensures v / (256 * p) == v / 256 / p
  {
    var u, b := v / 256, v % 256;
    var q, a := u / p, u % p;
    Scale256(q, p);
    assert u == q * p + a;
    assert v == q * (256 * p) + (256 * a + b);
    DivModUnique(v, q, 256 * a + b, 256 * p);
  }

  lemma Scale256(q: nat, p: nat)
    ensures q * (256 * p) == 256 * (q * p)
  {
  }

  /** Byte `i` is the digit of 256^(n - 1 - i). */
  lemma {:induction false} BeDigit(v: nat, n: nat, i: nat)
    requires i < n
    ensures BeBytes(v, n)[i] == v / Pow256(n - 1 - i) % 256
  {
    if i < n - 1 {
      BeDigit(v / 256, n - 1, i);
      ShiftMod(v, Pow256(n - 2 - i));
    }
  }

  /** Leading zeros. */
  lemma {:induction false} BeBytesWider(v: nat, n: nat)
    requires v < Pow256(n)
    ensures BeBytes(v, n + 1) == [0] + BeBytes(v, n)
  {
    if n > 0 {
      BeBytesWider(v / 256, n - 1);
      assert BeBytes(v, n + 1) == [0] + BeBytes(v / 256, n - 1) + [v % 256];
    } else {
      assert BeBytes(0, 1) == BeBytes(0, 0) + [0];
    }
  }

  /** toBigEndian: fill a buffer from its last cell, shifting the value down. */
  method ToBigEndian(val: nat, out: array<Byte>)
    modifies out
    ensures out[..] == BeBytes(val, out.Length)
  {
    var v, i := val, out.Length;
    while i != 0
      invariant 0 <= i <= out.Length
      invariant BeBytes(val, out.Length) == BeBytes(v, i) + out[i..]
    {
      ghost var tail := out[i..];
      out[i - 1] := v % 256;
      assert out[i - 1..] == [v % 256] + tail;
      v := v / 256;
      i := i - 1;
    }
    assert out[0..] == out[..];
  }

  lemma ModOfShift(a: nat, b: nat, m: nat)
    requires m > 0
    ensures (a % m * 256 + b) % m == (a * 256 + b) % m
  {
    var q := a / m;
    assert a == q * m + a % m;
    var x := a % m * 256 + b;
    assert a * 256 + b == x + (q * 256) * m;
    ModOfSum(x, q * 256, m);
  }

  lemma {:induction false} ModOfSum(x: nat, k: nat, m: nat)
    requires m > 0
    ensures (x + k * m) % m == x % m
  {
    var q, r := x / m, x % m;
    assert x + k * m == (q + k) * m + r;
    DivModUnique(x + k * m, q + k, r, m);
  }

  lemma MulDiff(a: nat, b: nat, m: nat)
    requires b < a
    ensures a * m - b * m >= m
  {
    if b + 1 < a {
      MulDiff(a - 1, b, m);
    }
    assert a * m == (a - 1) * m + m;
  }

  lemma DivModUnique(x: nat, q: nat, r: nat, m: nat)
    requires r < m && x == q * m + r
    ensures x / m == q && x % m == r
  {
    var q', r' := x / m, x % m;
    assert q' * m + r' == q * m + r;
    if q' < q {
      MulDiff(q, q', m);
    } else if q < q' {
      MulDiff(q', q, m);
    }
  }

  lemma BeValueStep(s: Bytes, i: nat, m: nat)
    requires i < |s| && m > 0
    ensures (BeValue(s[..i]) % m * 256 + s[i]) % m == BeValue(s[..i + 1]) % m
  {
    assert s[..i + 1][..i] == s[..i];
    ModOfShift(BeValue(s[..i]), s[i], m);
  }

  /** fromBigEndian into an unsigned type of `modulus` values: shift up and
      add each byte, keeping what fits the type. */
  method FromBigEndian(s: Bytes, modulus: nat) returns (r: nat)
    requires modulus > 0
    ensures r == BeValue(s) % modulus
  {
    r := 0;
    for i := 0 to |s|
      invariant r == BeValue(s[..i]) % modulus
    {
      BeValueStep(s, i, modulus);
      r := (r * 256 + s[i]) % modulus;
    }
    assert s[..|s|] == s;
  }
}
