/** Reconnection backoff, the system version probe and the rewrite of the public server domain
    that inserts the firmware's major version after a leading `$id.` marker. */
module SystemUtilities {
  import opened Basics
  import opened CStrings

  type uint16 = x: int | 0 <= x < 0x1_0000
  type uint32 = x: int | 0 <= x < 0x1_0000_0000

  // ---------------------------------------------------------------------------------------------
  // Reconnection backoff

  function Pow2(k: nat): (r: nat)
    ensures r >= 1
  {
    if k == 0 then 1 else 2 * Pow2(k - 1)
  }

  lemma {:induction false} Pow2Monotone(j: nat, k: nat)
    requires j <= k
    ensures Pow2(j) <= Pow2(k)
  {
    if j < k {
      Pow2Monotone(j, k - 1);
    }
  }

  const BACKOFF_MAX_EXPONENT: nat := 7
  const BACKOFF_UNIT_MS: nat := 1000

  /** The wait, in milliseconds, before reconnection attempt `connectionAttempts`:
      1 s for five attempts, then 2 s for five, doubling up to 128 s. */
  function BackoffPeriod(connectionAttempts: uint32): (ms: nat)
    ensures ms == 0 <==> connectionAttempts == 0
  {
    if connectionAttempts == 0 then 0
    else
      var exponent := Min(BACKOFF_MAX_EXPONENT, (connectionAttempts - 1) / 5);
      BACKOFF_UNIT_MS * Pow2(exponent)
  }

  /** Attempts 5k+1 .. 5k+5 wait 1000 * 2^k ms for k < 7; every attempt from 36 on waits 128 s. */
  lemma BackoffSchedule(connectionAttempts: uint32)
    requires connectionAttempts >= 1
    ensures connectionAttempts <= 35 ==> BackoffPeriod(connectionAttempts) == 1000 * Pow2((connectionAttempts - 1) / 5)
    ensures connectionAttempts >= 36 ==> BackoffPeriod(connectionAttempts) == 128000
  {
    assert Pow2(7) == 128 by {
      assert Pow2(1) == 2 && Pow2(2) == 4 && Pow2(3) == 8 && Pow2(4) == 16 && Pow2(5) == 32 && Pow2(6) == 64;
    }
  }

  lemma BackoffFirstSteps(connectionAttempts: uint32)
    ensures connectionAttempts == 0 ==> BackoffPeriod(connectionAttempts) == 0
    ensures 1 <= connectionAttempts <= 5 ==> BackoffPeriod(connectionAttempts) == 1000
    ensures 6 <= connectionAttempts <= 10 ==> BackoffPeriod(connectionAttempts) == 2000
    ensures 11 <= connectionAttempts <= 15 ==> BackoffPeriod(connectionAttempts) == 4000
  {
    assert Pow2(1) == 2 && Pow2(2) == 4;
  }

  lemma BackoffBounded(connectionAttempts: uint32)
    ensures BackoffPeriod(connectionAttempts) <= 128000
  {
    if connectionAttempts > 0 {
      Pow2Monotone(Min(BACKOFF_MAX_EXPONENT, (connectionAttempts - 1) / 5), 7);
      BackoffSchedule(36);
    }
  }

  lemma BackoffMonotone(m: uint32, n: uint32)
    requires m <= n
    ensures BackoffPeriod(m) <= BackoffPeriod(n)
  {
    if m > 0 {
      Pow2Monotone(Min(BACKOFF_MAX_EXPONENT, (m - 1) / 5), Min(BACKOFF_MAX_EXPONENT, (n - 1) / 5));
    }
  }

  /** Five attempts later the wait has doubled, up to the 128 s cap. */
  lemma BackoffDoublesEveryFiveAttempts(n: uint32)
    requires 1 <= n && n + 5 < 0x1_0000_0000
    ensures BackoffPeriod(n + 5) == Min(2 * BackoffPeriod(n), 128000)
  {
    BackoffSchedule(36);
    var e := (n - 1) / 5;
    assert (n + 5 - 1) / 5 == e + 1;
    if e >= 7 {
      Pow2Monotone(7, e);
    }
  }

  // ---------------------------------------------------------------------------------------------
  // System version probe

  /** `sizeof(SystemVersionInfo)`: a 2-byte size, 2 reserved bytes, a 4-byte version and a 20-byte string. */
  const SYSTEM_VERSION_INFO_SIZE: nat := 28
  const VERSION_STRING_SIZE: nat := 20

  /** The caller-allocated record the probe fills. `size` is what the caller declares the record to hold;
      a record declared without an explicit size carries `sizeof(SystemVersionInfo)`. `versionString` is the
      fixed 20-byte character field. */
  class SystemVersionInfo {
    var size: uint16
    var versionNumber: uint32
    const versionString: array<uint8>

    constructor (size: uint16)
      ensures this.size == size && versionNumber == 0
      ensures fresh(versionString) && versionString[..] == Zeros(VERSION_STRING_SIZE)
    {
      this.size := size;
      versionNumber := 0;
      versionString := new uint8[VERSION_STRING_SIZE](_ => NUL);
    }
  }

  /** `system_version_info`: always reports the record size 28, and fills the record only when the caller
      passed one that declares at least 28 bytes. The version string is cut to the 20-byte field. */
  method GetSystemVersionInfo(info: SystemVersionInfo?, systemVersion: uint32, systemVersionString: seq<uint8>)
    returns (r: int)
    requires info != null ==> info.versionString.Length == VERSION_STRING_SIZE
    modifies if info != null then {info, info.versionString} else {}
    ensures r == SYSTEM_VERSION_INFO_SIZE
    ensures info != null ==> info.size == old(info.size)
    ensures info != null && old(info.size) >= SYSTEM_VERSION_INFO_SIZE ==>
      info.versionNumber == systemVersion && info.versionString[..] == Strncpy(systemVersionString, VERSION_STRING_SIZE)
    ensures info != null && old(info.size) < SYSTEM_VERSION_INFO_SIZE ==>
      info.versionNumber == old(info.versionNumber) && info.versionString[..] == old(info.versionString[..])
  {
    if info != null && info.size >= SYSTEM_VERSION_INFO_SIZE as int {
      info.versionNumber := systemVersion;
      CopyInto(info.versionString, Strncpy(systemVersionString, VERSION_STRING_SIZE));
    }
    return SYSTEM_VERSION_INFO_SIZE;
  }

  /** `BYTE_N(versionNumber, 3)`, that is `(versionNumber >> 24) & 0xff`: the most significant byte of the
      packed version is the major version. */
  function MajorVersion(versionNumber: uint32): (major: uint8)
    ensures versionNumber == major * 0x100_0000 + versionNumber % 0x100_0000
  {
    (versionNumber / 0x100_0000) % 0x100
  }

  /** A version packed one byte per field, major in the top byte. */
  function PackVersion(major: uint8, minor: uint8, patch: uint8, release: uint8): (v: uint32)
  {
    major * 0x100_0000 + minor * 0x1_0000 + patch * 0x100 + release
  }

  /** Reading the top byte back recovers the packed major version. */
  lemma MajorOfPackedVersion(major: uint8, minor: uint8, patch: uint8, release: uint8)
    ensures MajorVersion(PackVersion(major, minor, patch, release)) == major
  {
    var low := minor * 0x1_0000 + patch * 0x100 + release;
    assert 0 <= low < 0x100_0000;
    assert PackVersion(major, minor, patch, release) == major * 0x100_0000 + low;
  }

  // ---------------------------------------------------------------------------------------------
  // Public server domain rewrite

  /** Room reserved for the inserted "v<major>." token ("v0." up to "v255." and its terminator). */
  const MAJOR_VERSION_TOKEN_SIZE_MAX: nat := 6

  const ID_TOKEN: seq<uint8> := ['$' as int, 'i' as int, 'd' as int, '.' as int]
  const LETTER_V: uint8 := 'v' as int
  const DOT: uint8 := '.' as int

  /** The stored server address; only its fixed-capacity, NUL-terminated domain field is modelled. */
  class ServerAddress {
    const domain: array<uint8>

    constructor (capacity: nat)
      ensures fresh(domain) && domain[..] == Zeros(capacity)
    {
      domain := new uint8[capacity](_ => NUL);
    }
  }

  /** The rewrite applies only when the pre-check leaves room for the token and the domain starts with `$id.`. */
  predicate Rewritable(domain: seq<uint8>)
  {
    StrLen(domain) + MAJOR_VERSION_TOKEN_SIZE_MAX < |domain| && StartsWith(CString(domain), ID_TOKEN)
  }

  /** The text `"$id.v" + decimal(major) + "." + <the original text after "$id.">`. */
  function VersionedDomain(domain: seq<uint8>, major: uint8): seq<uint8>
    requires StartsWith(CString(domain), ID_TOKEN)
  {
    ID_TOKEN + [LETTER_V] + Decimal(major) + [DOT] + CString(domain)[|ID_TOKEN|..]
  }

  /** What `update_public_server_domain` returns for a non-null address: 0 exactly when the rewrite does
      not apply. */
  function RewriteResult(domain: seq<uint8>, major: uint8): (r: nat)
    ensures r == 0 <==> !Rewritable(domain)
  {
    if Rewritable(domain) then |VersionedDomain(domain, major)| else 0
  }

  /** The domain buffer afterwards: on success the first `new_size` bytes hold the new text and every byte
      from `new_size` on keeps its old value (strncpy copies no terminator); otherwise nothing changes. */
  function RewrittenBuffer(domain: seq<uint8>, major: uint8): (r: seq<uint8>)
    ensures |r| == |domain|
    ensures Rewritable(domain) ==> VersionedDomain(domain, major) <= r
  {
    if Rewritable(domain) then
      var text := VersionedDomain(domain, major);
      VersionedDomainFits(domain, major);
      text + domain[|text|..]
    else domain
  }

  /** The new text is `len + 2 + digits(major)` bytes, holds no NUL, fits strictly inside the snprintf
      bound `len + 6` (so snprintf never truncates it) and so strictly inside the buffer. */
  lemma VersionedDomainFits(domain: seq<uint8>, major: uint8)
    requires Rewritable(domain)
    ensures |VersionedDomain(domain, major)| == StrLen(domain) + 2 + |Decimal(major)|
    ensures |VersionedDomain(domain, major)| < StrLen(domain) + MAJOR_VERSION_TOKEN_SIZE_MAX
    ensures |VersionedDomain(domain, major)| < |domain|
    ensures NUL !in VersionedDomain(domain, major)
  {
    DecimalLength(major);
    var text := VersionedDomain(domain, major);
    forall i | 0 <= i < |text| ensures text[i] != NUL {
      var rest := CString(domain)[|ID_TOKEN|..];
      var d := Decimal(major);
      assert text == ID_TOKEN + [LETTER_V] + d + [DOT] + rest;
      if i >= |ID_TOKEN| + 1 + |d| + 1 {
        assert text[i] == rest[i - (|ID_TOKEN| + 1 + |d| + 1)];
      } else if |ID_TOKEN| + 1 <= i < |ID_TOKEN| + 1 + |d| {
        assert text[i] == d[i - (|ID_TOKEN| + 1)];
      }
    }
  }

  /** The return value is the old length plus 2 plus the digit count of the major version, so 1, 2 or 3
      more than `len + 2`, and it is always below the capacity. */
  lemma RewriteResultLength(domain: seq<uint8>, major: uint8)
    ensures Rewritable(domain) ==>
      RewriteResult(domain, major) == StrLen(domain) + 2 + (if major > 99 then 3 else if major > 9 then 2 else 1)
    ensures RewriteResult(domain, major) < |domain| || RewriteResult(domain, major) == 0
  {
    DecimalLength(major);
    if Rewritable(domain) {
      VersionedDomainFits(domain, major);
    }
  }

  /** All or nothing: the buffer is unchanged exactly when the result is 0, and a successful rewrite touches
      only the bytes `[0, new_size)`. */
  lemma RewriteAllOrNothing(domain: seq<uint8>, major: uint8)
    ensures RewriteResult(domain, major) == 0 <==> RewrittenBuffer(domain, major) == domain
    ensures RewrittenBuffer(domain, major)[RewriteResult(domain, major)..] == domain[RewriteResult(domain, major)..]
  {
    if Rewritable(domain) {
      VersionedDomainFits(domain, major);
      var text := VersionedDomain(domain, major);
      var n := StrLen(domain);
      assert n < |text|;
      assert domain[n] == NUL;
      assert RewrittenBuffer(domain, major)[n] == text[n] != NUL;
    }
  }

  /** The text the string holds afterwards, when the buffer beyond the old string was zero-filled: the rewrite
      of a successful call, the old string otherwise. */
  lemma RewriteOfZeroPaddedBuffer(domain: seq<uint8>, major: uint8)
    requires forall i :: StrLen(domain) <= i < |domain| ==> domain[i] == NUL
    ensures Rewritable(domain) ==> CString(RewrittenBuffer(domain, major)) == VersionedDomain(domain, major)
    ensures !Rewritable(domain) ==> CString(RewrittenBuffer(domain, major)) == CString(domain)
  {
    if Rewritable(domain) {
      VersionedDomainFits(domain, major);
      var text := VersionedDomain(domain, major);
      CStringOfNulFree(text, domain[|text|..]);
    }
  }

  /** A domain that does not start with `$id.` is never rewritten, even when `$id.` occurs later. */
  lemma MarkerMustLead(domain: seq<uint8>, major: uint8, k: nat)
    requires IsAt(CString(domain), ID_TOKEN, k) && !StartsWith(CString(domain), ID_TOKEN)
    ensures k > 0
    ensures RewriteResult(domain, major) == 0 && RewrittenBuffer(domain, major) == domain
  {
  }

  /** Because strncpy stops at `new_size`, the old terminator is overwritten and a NUL survives only if the
      old buffer had one at or beyond `new_size`: "$id.a", its NUL and 58 further non-NUL bytes come out
      with no terminator at all. */
  lemma RewriteCanLoseTerminator()
    ensures var domain := ID_TOKEN + ['a' as int, NUL] + seq(58, _ => 'x' as int);
      |domain| == 64 && NUL in domain && Rewritable(domain) && NUL !in RewrittenBuffer(domain, 1)
  {
    var domain: seq<uint8> := ID_TOKEN + ['a' as int, NUL] + seq(58, _ => 'x' as int);
    assert domain == (ID_TOKEN + ['a' as int]) + ([NUL] + seq(58, _ => 'x' as int));
    CStringOfNulFree(ID_TOKEN + ['a' as int], [NUL] + seq(58, _ => 'x' as int));
    assert domain[5] == NUL;
    var text := VersionedDomain(domain, 1);
    VersionedDomainFits(domain, 1);
    assert |text| == 8;
    assert forall i :: 8 <= i < 64 ==> domain[i] == 'x' as int;
  }

  /** The rewrite as evidently intended: the new text followed by its terminator, the rest of the buffer
      as it was. */
  function TerminatedRewrittenBuffer(domain: seq<uint8>, major: uint8): (r: seq<uint8>)
    ensures |r| == |domain|
  {
    if Rewritable(domain) then
      var text := VersionedDomain(domain, major);
      VersionedDomainFits(domain, major);
      text + [NUL] + domain[|text| + 1..]
    else domain
  }

  /** Whatever lies beyond the old string, the intended rewrite leaves a NUL-terminated domain holding
      exactly the new text; on a zero-padded buffer it agrees with the rewrite as written. */
  lemma TerminatedRewriteHoldsVersionedDomain(domain: seq<uint8>, major: uint8)
    requires NUL in domain
    ensures NUL in TerminatedRewrittenBuffer(domain, major)
    ensures Rewritable(domain) ==> CString(TerminatedRewrittenBuffer(domain, major)) == VersionedDomain(domain, major)
    ensures !Rewritable(domain) ==> TerminatedRewrittenBuffer(domain, major) == domain
    ensures (forall i :: StrLen(domain) <= i < |domain| ==> domain[i] == NUL) ==>
      TerminatedRewrittenBuffer(domain, major) == RewrittenBuffer(domain, major)
  {
    if Rewritable(domain) {
      VersionedDomainFits(domain, major);
      var text := VersionedDomain(domain, major);
      var r := TerminatedRewrittenBuffer(domain, major);
      assert r == text + ([NUL] + domain[|text| + 1..]);
      CStringOfNulFree(text, [NUL] + domain[|text| + 1..]);
      assert r[|text|] == NUL;
      if forall i :: StrLen(domain) <= i < |domain| ==> domain[i] == NUL {
        assert domain[|text|..] == [NUL] + domain[|text| + 1..];
      }
    }
  }

  /** `update_public_server_domain`. A null address, a domain whose length leaves no room for the token
      (`len + 6 >= capacity`) or one that does not start with `$id.` yields 0 and an untouched buffer;
      otherwise the domain becomes `$id.v<major>.<rest>` and the new length is returned. */
  method UpdatePublicServerDomain(serverAddr: ServerAddress?, systemVersion: uint32, systemVersionString: seq<uint8>)
    returns (r: int)
    modifies if serverAddr != null then {serverAddr.domain} else {}
    ensures serverAddr == null ==> r == 0
    ensures serverAddr != null ==>
      r == RewriteResult(old(serverAddr.domain[..]), MajorVersion(systemVersion)) &&
      serverAddr.domain[..] == RewrittenBuffer(old(serverAddr.domain[..]), MajorVersion(systemVersion))
  {
    if serverAddr == null {
      return 0;
    }
    var domain := serverAddr.domain;
    var maxSize := domain.Length;
    var serverAddrLen := StrLen(domain[..]);
    if serverAddrLen + MAJOR_VERSION_TOKEN_SIZE_MAX < maxSize {
      var idPtr := Strstr(domain[..], ID_TOKEN);
      StrstrAtZero(domain[..], ID_TOKEN);
      if idPtr == Some(0) {
        var sysVer := new SystemVersionInfo(SYSTEM_VERSION_INFO_SIZE);
        var _ := GetSystemVersionInfo(sysVer, systemVersion, systemVersionString);
        var major := MajorVersion(sysVer.versionNumber);
        ghost var before := domain[..];
        assert CString(before)[..|ID_TOKEN|] == before[..|ID_TOKEN|];
        CStringDrop(before, |ID_TOKEN|);
        var formatted := ID_TOKEN + [LETTER_V] + Decimal(major) + [DOT] + CString(domain[idPtr.value + |ID_TOKEN|..]);
        assert formatted == VersionedDomain(before, major);
        VersionedDomainFits(before, major);
        var out := Snprintf(formatted, serverAddrLen + MAJOR_VERSION_TOKEN_SIZE_MAX, maxSize);
        var newDomain, newSize := out.0, out.1;
        if 0 < newSize < maxSize {
          assert CString(newDomain) == formatted;
          CopyInto(domain, Strncpy(newDomain, newSize));
          assert Strncpy(newDomain, newSize) == formatted;
          return newSize;
        }
      }
    }
    return 0;
  }
}
