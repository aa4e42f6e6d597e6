/** Bytes, little-endian 32-bit words and C strings: the memory layer every codec stands on. */
module Bytes {
  type byte = x: int | 0 <= x < 256

  const WORD_LIMIT := 0x1_0000_0000

  /** The four bytes that a little-endian machine stores for the 32-bit word v. */
  function U32Le(v: nat): (b: seq<byte>)
    requires v < WORD_LIMIT
    ensures |b| == 4
  {
    [v % 256, v / 256 % 256, v / 65536 % 256, v / 16777216]
  }

  function U32At(b: seq<byte>, at: nat): (v: nat)
    requires at + 4 <= |b|
    ensures v < WORD_LIMIT
  {
    var b0: int, b1: int, b2: int, b3: int := b[at], b[at + 1], b[at + 2], b[at + 3];
    b0 + 256 * b1 + 65536 * b2 + 16777216 * b3
  }

  /** The same four bytes are the same word. */
  lemma SameWord(x: seq<byte>, i: nat, y: seq<byte>, j: nat)
    requires i + 4 <= |x| && j + 4 <= |y| && x[i..i + 4] == y[j..j + 4]
    ensures U32At(x, i) == U32At(y, j)
  {
    assert forall k :: i <= k < i + 4 ==> x[k] == x[i..i + 4][k - i];
    assert forall k :: j <= k < j + 4 ==> y[k] == y[j..j + 4][k - j];
  }

  lemma U32RoundTrip(v: nat)
    requires v < WORD_LIMIT
    ensures U32At(U32Le(v), 0) == v
  {
    assert v / 65536 == v / 256 / 256;
    assert v / 16777216 == v / 65536 / 256;
  }

  lemma U32Stored(b: seq<byte>, at: nat, v: nat)
    requires v < WORD_LIMIT && at + 4 <= |b| && b[at..at + 4] == U32Le(v)
    ensures U32At(b, at) == v
  {
    U32RoundTrip(v);
    assert forall i :: 0 <= i < 4 ==> b[at + i] == U32Le(v)[i];
  }

  lemma SplitLow(v: nat, q: nat, r: byte)
    requires v == 256 * q + r
    ensures v % 256 == r && v / 256 == q
  {
  }

  lemma U32Canonical(b: seq<byte>, at: nat)
    requires at + 4 <= |b|
    ensures U32Le(U32At(b, at)) == b[at..at + 4]
  {
    var v := U32At(b, at);
    var b1: int, b2: int, b3: int := b[at + 1], b[at + 2], b[at + 3];
    SplitLow(v, b1 + 256 * b2 + 65536 * b3, b[at]);
    SplitLow(b1 + 256 * b2 + 65536 * b3, b2 + 256 * b3, b[at + 1]);
    SplitLow(b2 + 256 * b3, b3, b[at + 2]);
    assert v / 65536 == v / 256 / 256 && v / 16777216 == v / 256 / 256 / 256;
  }

  /** The four bytes of a C int read as two's complement. */
  function I32At(b: seq<byte>, at: nat): (v: int)
    requires at + 4 <= |b|
    ensures -0x8000_0000 <= v < 0x8000_0000
  {
    var u := U32At(b, at);
    if u < 0x8000_0000 then u else u - WORD_LIMIT
  }

  function I32Le(v: int): (b: seq<byte>)
    requires -0x8000_0000 <= v < 0x8000_0000
    ensures |b| == 4
  {
    U32Le(if v >= 0 then v else v + WORD_LIMIT)
  }

  lemma I32RoundTrip(v: int)
    requires -0x8000_0000 <= v < 0x8000_0000
    ensures I32At(I32Le(v), 0) == v
  {
    U32RoundTrip(if v >= 0 then v else v + WORD_LIMIT);
  }

  function Min(a: nat, b: nat): (n: nat) { if a <= b then a else b }

  predicate NulFree(s: seq<byte>) {
    forall i :: 0 <= i < |s| ==> s[i] != 0
  }

  /** strlen through a char pointer to offset at of mem; the end of mem stands in for a missing NUL. */
  function StrLen(mem: seq<byte>, at: nat): (n: nat)
    requires at <= |mem|
    ensures at + n <= |mem|
    decreases |mem| - at
  {
    if at == |mem| || mem[at] == 0 then 0 else 1 + StrLen(mem, at + 1)
  }

  /** The C string found through that pointer, as strcpy and the std::string constructor copy it. */
  function CStrAt(mem: seq<byte>, at: nat): (b: seq<byte>)
    requires at <= |mem|
  {
    mem[at..at + StrLen(mem, at)]
  }

  /** The search for the NUL ends inside mem. */
  predicate TerminatedAt(mem: seq<byte>, at: nat)
    requires at <= |mem|
  {
    at + StrLen(mem, at) < |mem|
  }

  /** The string is NUL-free and stops only for a NUL or the end of mem. */
  lemma {:induction false} StrLenMeaning(mem: seq<byte>, at: nat)
    requires at <= |mem|
    ensures var end := at + StrLen(mem, at);
            (forall i :: at <= i < end ==> mem[i] != 0) && (end < |mem| ==> mem[end] == 0)
    decreases |mem| - at
  {
    if at < |mem| && mem[at] != 0 {
      StrLenMeaning(mem, at + 1);
    }
  }

  lemma {:induction false} StrLenLocal(x: seq<byte>, i: nat, y: seq<byte>, j: nat, k: nat)
    requires i + k <= |x| && j + k <= |y| && x[i..i + k] == y[j..j + k]
    ensures Min(StrLen(x, i), k) == Min(StrLen(y, j), k)
    decreases k
  {
    if k > 0 {
      assert x[i] == x[i..i + k][0] == y[j..j + k][0] == y[j];
      assert x[i + 1..i + k] == x[i..i + k][1..] == y[j..j + k][1..] == y[j + 1..j + k];
      StrLenLocal(x, i + 1, y, j + 1, k - 1);
    }
  }

  /** s.c_str(), whose terminator is implicit. */
  function CStr(s: seq<byte>): (r: seq<byte>)
    ensures r <= s && NulFree(r)
    ensures |r| < |s| ==> s[|r|] == 0
  {
    StrLenMeaning(s, 0);
    CStrAt(s, 0)
  }

  /** A terminated string is read back whatever bytes surround it. */
  lemma CStrStored(mem: seq<byte>, at: nat, m: seq<byte>)
    requires at + |m| < |mem| && mem[at..at + |m|] == m && NulFree(m) && mem[at + |m|] == 0
    ensures CStrAt(mem, at) == m && TerminatedAt(mem, at)
  {
    StrLenMeaning(mem, at);
    assert forall i :: 0 <= i < |m| ==> mem[at + i] == m[i];
  }

  lemma SubSlice<T>(mem: seq<T>, at: nat, f: seq<T>, i: nat, j: nat)
    requires i <= j <= |f| && at + |f| <= |mem| && mem[at..at + |f|] == f
    ensures mem[at + i..at + j] == f[i..j]
  {
    forall k | at + i <= k < at + j
      ensures mem[k] == f[k - at]
    {
      assert mem[k] == mem[at..at + |f|][k - at];
    }
  }

  function Zeros(n: nat): (z: seq<byte>)
    ensures |z| == n && forall i :: 0 <= i < n ==> z[i] == 0
  {
    seq(n, i => 0)
  }

  /** memset(a + from, 0, a.Length - from). */
  method ClearFrom(a: array<byte>, from: nat)
    requires from <= a.Length
    modifies a
    ensures a[..] == old(a[..from]) + Zeros(a.Length - from)
  {
    var i := from;
    while i < a.Length
      invariant from <= i <= a.Length
      invariant a[..from] == old(a[..from])
      invariant forall k :: from <= k < i ==> a[k] == 0
    {
      a[i] := 0;
      i := i + 1;
    }
  }

  /** memcpy(a + at, b, |b|). */
  method CopyIn(a: array<byte>, at: nat, b: seq<byte>)
    requires at + |b| <= a.Length
    modifies a
    ensures a[..] == old(a[..at]) + b + old(a[at + |b|..])
  {
    var i := 0;
    while i < |b|
      invariant 0 <= i <= |b|
      invariant a[..at] == old(a[..at])
      invariant a[at..at + i] == b[..i]
      invariant a[at + i..] == old(a[at + i..])
    {
      a[at + i] := b[i];
      assert a[at..at + i + 1] == a[at..at + i] + [b[i]];
      i := i + 1;
    }
    assert a[..] == a[..at] + a[at..at + |b|] + a[at + |b|..];
  }
}
