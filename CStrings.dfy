/** The C library string and memory routines that the firmware uses, as operations on byte sequences.
    A C buffer is a `seq<uint8>`; the string it holds is the part before its first NUL byte. */
module CStrings {
  import opened Basics

  type uint8 = x: int | 0 <= x < 0x100

  const NUL: uint8 := 0

  function Zeros(n: nat): (r: seq<uint8>)
    ensures |r| == n && forall i :: 0 <= i < n ==> r[i] == NUL
  {
    seq(n, _ => NUL)
  }

  /** The string a C function reads from buffer `s`: every byte before the first NUL. */
  function CString(s: seq<uint8>): (r: seq<uint8>)
    ensures |r| <= |s| && r == s[..|r|] && NUL !in r
    ensures |r| < |s| ==> s[|r|] == NUL
  {
    if s == [] || s[0] == NUL then [] else [s[0]] + CString(s[1..])
  }

  /** `strlen`: the index of the first NUL. */
  function StrLen(s: seq<uint8>): (n: nat)
    ensures n <= |s| && NUL !in s[..n]
    ensures n < |s| ==> s[n] == NUL
  {
    |CString(s)|
  }

  lemma {:induction false} CStringOfNulFree(f: seq<uint8>, tail: seq<uint8>)
    requires NUL !in f
    requires tail == [] || tail[0] == NUL
    ensures CString(f + tail) == f
  {
    if f != [] {
      assert (f + tail)[1..] == f[1..] + tail;
      CStringOfNulFree(f[1..], tail);
    } else {
      assert f + tail == tail;
    }
  }

  /** Dropping a prefix that holds no NUL drops the same prefix of the C string. */
  lemma {:induction false} CStringDrop(s: seq<uint8>, k: nat)
    requires k <= |s| && NUL !in s[..k]
    ensures k <= |CString(s)| && CString(s[k..]) == CString(s)[k..]
  {
    if k > 0 {
      assert s[0] == s[..k][0];
      assert s[1..][..k - 1] == s[..k][1..];
      CStringDrop(s[1..], k - 1);
      assert s[1..][k - 1..] == s[k..];
    }
  }

  predicate IsAt(h: seq<uint8>, n: seq<uint8>, i: nat)
  {
    i + |n| <= |h| && h[i..i + |n|] == n
  }

  predicate StartsWith(s: seq<uint8>, prefix: seq<uint8>)
  {
    IsAt(s, prefix, 0)
  }

  function FindFrom(h: seq<uint8>, n: seq<uint8>, i: nat): (r: Option<nat>)
    requires i <= |h|
    ensures r.Some? ==> i <= r.value && IsAt(h, n, r.value)
    ensures forall j: nat :: i <= j && (r.None? || j < r.value) ==> !IsAt(h, n, j)
    decreases |h| - i
  {
    if i + |n| > |h| then None
    else if h[i..i + |n|] == n then Some(i)
    else FindFrom(h, n, i + 1)
  }

  /** `strstr`: the position of the first occurrence of `needle` in the C string of `haystack`. */
  function Strstr(haystack: seq<uint8>, needle: seq<uint8>): (r: Option<nat>)
    ensures r.Some? ==> IsAt(CString(haystack), needle, r.value)
    ensures forall j: nat :: (r.None? || j < r.value) ==> !IsAt(CString(haystack), needle, j)
  {
    FindFrom(CString(haystack), needle, 0)
  }

  /** `strstr` finds its needle at offset 0 exactly when the string starts with the needle,
      whatever later occurrences there are. */
  lemma StrstrAtZero(haystack: seq<uint8>, needle: seq<uint8>)
    ensures Strstr(haystack, needle) == Some(0) <==> StartsWith(CString(haystack), needle)
  {
    var r := Strstr(haystack, needle);
    if StartsWith(CString(haystack), needle) {
      assert r.Some? && r.value <= 0;
    }
  }

  /** `snprintf(buf, bound, ...)` into a zero-filled buffer of `capacity` bytes, where `formatted` is the
      whole text the format would produce: the buffer afterwards, and the value snprintf returns
      (the length of the untruncated text). */
  function Snprintf(formatted: seq<uint8>, bound: nat, capacity: nat): (out: (seq<uint8>, nat))
    requires NUL !in formatted
    requires bound <= capacity
    ensures |out.0| == capacity && out.1 == |formatted|
    ensures bound > 0 ==> CString(out.0) == formatted[..Min(|formatted|, bound - 1)]
    ensures bound == 0 ==> CString(out.0) == []
  {
    var written := if bound == 0 then [] else formatted[..Min(|formatted|, bound - 1)] + [NUL];
    var buf := written + Zeros(capacity - |written|);
    if bound == 0 then
      (buf, |formatted|)
    else
      assert buf == formatted[..Min(|formatted|, bound - 1)] + ([NUL] + Zeros(capacity - |written|));
      CStringOfNulFree(formatted[..Min(|formatted|, bound - 1)], [NUL] + Zeros(capacity - |written|));
      (buf, |formatted|)
  }

  /** `strncpy(dst, src, n)`: the `n` bytes it stores, namely the C string of `src` cut at `n`
      and padded with NUL up to `n`. */
  function Strncpy(src: seq<uint8>, n: nat): (r: seq<uint8>)
    ensures |r| == n
    ensures forall i :: 0 <= i < n ==> r[i] == if i < StrLen(src) then src[i] else NUL
  {
    var c := CString(src);
    if |c| >= n then c[..n] else c + Zeros(n - |c|)
  }

  /** `memcpy(dst, bytes, |bytes|)`: the first `|bytes|` cells of `dst` receive `bytes`, the rest keep their values. */
  method CopyInto(dst: array<uint8>, bytes: seq<uint8>)
    requires |bytes| <= dst.Length
    modifies dst
    ensures dst[..] == bytes + old(dst[|bytes|..])
  {
    var i := 0;
    while i < |bytes|
      invariant 0 <= i <= |bytes|
      invariant dst[..i] == bytes[..i]
      invariant dst[i..] == old(dst[i..])
    {
      dst[i] := bytes[i];
      assert dst[i + 1..] == old(dst[i + 1..]) by {
        assert forall k :: i + 1 <= k < dst.Length ==> dst[k] == old(dst[k]);
      }
      i := i + 1;
      assert dst[..i] == bytes[..i];
    }
    assert dst[..] == dst[..i] + dst[i..];
  }

  // Decimal rendering, as printf's `%d` writes a non-negative number.

  predicate IsDigit(c: uint8) { '0' as int <= c <= '9' as int }

  function DigitChar(d: nat): (c: uint8)
    requires d < 10
    ensures IsDigit(c)
  {
    '0' as int + d
  }

  function Decimal(n: nat): (r: seq<uint8>)
    ensures 1 <= |r|
    ensures forall i :: 0 <= i < |r| ==> IsDigit(r[i])
    ensures |r| > 1 ==> r[0] != '0' as int
  {
    if n < 10 then [DigitChar(n)] else Decimal(n / 10) + [DigitChar(n % 10)]
  }

  function DigitValue(c: uint8): (d: nat)
    requires IsDigit(c)
    ensures d < 10 && DigitChar(d) == c
  {
    c - '0' as int
  }

  /** Reads a run of ASCII digits back as a number: the inverse of Decimal. */
  function ParseDecimal(s: seq<uint8>): nat
    requires forall i :: 0 <= i < |s| ==> IsDigit(s[i])
  {
    if s == [] then 0 else ParseDecimal(s[..|s| - 1]) * 10 + DigitValue(s[|s| - 1])
  }

  lemma {:induction false} DecimalRoundTrip(n: nat)
    ensures ParseDecimal(Decimal(n)) == n
  {
    if n >= 10 {
      var d := Decimal(n);
      assert d[..|d| - 1] == Decimal(n / 10);
      DecimalRoundTrip(n / 10);
    }
  }

  /** A byte value prints as 1, 2 or 3 digits, split at 9 and 99. */
  lemma DecimalLength(n: nat)
    requires n < 0x100
    ensures |Decimal(n)| == if n > 99 then 3 else if n > 9 then 2 else 1
  {
    if n >= 10 {
      assert |Decimal(n)| == |Decimal(n / 10)| + 1;
      if n >= 100 {
        assert |Decimal(n / 10)| == |Decimal(n / 100)| + 1;
      }
    }
  }
}
