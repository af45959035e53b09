/** The unit-test scenarios of the server domain rewrite, stated on the model: 64-byte domain buffers that
    start zero-filled, as the tests' `ServerAddress server_addr = {}` does. */
module SystemUtilitiesExamples {
  import opened Basics
  import opened CStrings
  import opened SystemUtilities

  const DOMAIN_CAPACITY: nat := 64

  /** A zero-filled 64-byte domain buffer holding `text`. */
  function DomainBuffer(text: seq<uint8>): (d: seq<uint8>)
    requires NUL !in text && |text| < DOMAIN_CAPACITY
    ensures |d| == DOMAIN_CAPACITY && CString(d) == text
    ensures forall i :: StrLen(d) <= i < |d| ==> d[i] == NUL
  {
    CStringOfNulFree(text, Zeros(DOMAIN_CAPACITY - |text|));
    text + Zeros(DOMAIN_CAPACITY - |text|)
  }

  /** `$id.<rest>` in a 64-byte buffer is rewritten exactly when it is at most 57 bytes long; then the string
      becomes `$id.v<major>.<rest>` and the call returns its length, the old length plus 2 plus the digits. */
  lemma MarkedDomainRewrite(rest: seq<uint8>, major: uint8)
    requires NUL !in rest && |ID_TOKEN + rest| < DOMAIN_CAPACITY
    ensures var d := DomainBuffer(ID_TOKEN + rest);
      (Rewritable(d) <==> |ID_TOKEN + rest| <= 57) &&
      (|ID_TOKEN + rest| <= 57 ==>
        RewriteResult(d, major) == |ID_TOKEN + rest| + 2 + |Decimal(major)| &&
        CString(RewrittenBuffer(d, major)) == ID_TOKEN + [LETTER_V] + Decimal(major) + [DOT] + rest) &&
      (|ID_TOKEN + rest| > 57 ==> RewriteResult(d, major) == 0 && RewrittenBuffer(d, major) == d)
  {
    var d := DomainBuffer(ID_TOKEN + rest);
    assert CString(d)[..4] == ID_TOKEN;
    RewriteOfZeroPaddedBuffer(d, major);
    if |ID_TOKEN + rest| <= 57 {
      VersionedDomainFits(d, major);
      assert CString(d)[|ID_TOKEN|..] == rest;
    }
  }

  /** The 57-byte domain of the overflow test grows to 62 bytes with major version 255; one byte more and
      the call returns 0. */
  lemma CapacityBoundary(rest57: seq<uint8>, rest58: seq<uint8>)
    requires NUL !in rest57 && |ID_TOKEN + rest57| == 57
    requires NUL !in rest58 && |ID_TOKEN + rest58| == 58
    ensures RewriteResult(DomainBuffer(ID_TOKEN + rest57), 255) == 62
    ensures RewriteResult(DomainBuffer(ID_TOKEN + rest58), 255) == 0
    ensures RewrittenBuffer(DomainBuffer(ID_TOKEN + rest58), 255) == DomainBuffer(ID_TOKEN + rest58)
  {
    MarkedDomainRewrite(rest57, 255);
    MarkedDomainRewrite(rest58, 255);
    DecimalLength(255);
  }

  /** A domain whose first byte is not `$`, such as "device.spark.io" or
      "udp-mesh.particle.io.$id.udp-mesh.particle.io", is left alone and the call returns 0. */
  lemma UnmarkedDomainIsLeftAlone(text: seq<uint8>, major: uint8)
    requires NUL !in text && |text| < DOMAIN_CAPACITY
    requires text == [] || text[0] != '$' as int
    ensures RewriteResult(DomainBuffer(text), major) == 0
    ensures RewrittenBuffer(DomainBuffer(text), major) == DomainBuffer(text)
  {
  }

  /** Major version 255 renders as its three digits. */
  lemma MajorVersion255Renders()
    ensures Decimal(255) == ['2' as int, '5' as int, '5' as int]
  {
  }

  /** The 64-byte domain filled by a 64-character `$id.` string with no room for its terminator: strlen
      finds no NUL within the buffer, the pre-check fails, the call returns 0 and nothing changes. */
  lemma UnterminatedDomainIsLeftAlone(domain: seq<uint8>, major: uint8)
    requires |domain| == DOMAIN_CAPACITY && NUL !in domain
    ensures StrLen(domain) == DOMAIN_CAPACITY
    ensures RewriteResult(domain, major) == 0 && RewrittenBuffer(domain, major) == domain
  {
  }
}
