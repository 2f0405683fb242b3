/** The fixed vocabularies and the four regular expressions of
    src/main/kotlin/policymig/util/PolicyUtils.kt, the regular expressions written
    out as character-level predicates (Kotlin's `matches` tests the whole string). */
module PolicyUtils {
  import opened Text

  const Targets: seq<string> := ["aws", "gcp"]

  const AwsRegions: seq<string> := [
    "us-east-2", "us-east-1", "us-west-1", "us-west-2", "ap-east-1", "ap-south-1", "ap-northeast-3",
    "ap-northeast-2", "ap-southeast-1", "ap-southeast-2", "ap-northeast-1", "ca-central-1", "cn-north-1",
    "cn-northwest-1", "eu-central-1", "eu-west-1", "eu-west-2", "eu-west-3", "eu-north-1", "me-south-1",
    "sa-east-1", "us-gov-east-1", "us-gov-west-1"]

  const Directions: seq<string> := ["INGRESS", "EGRESS"]

  const Actions: seq<string> := ["allow", "deny"]

  const Protocols: seq<string> := ["tcp", "udp", "icmp", "esp", "ah", "sctp", "all"]

  /** The closed vocabularies: two targets, two directions, two actions, seven protocols
      and 23 AWS region codes, among them the "us-west-2" of the sample policy. */
  lemma EnumerationsFixed()
    ensures |Targets| == 2 && |Directions| == 2 && |Actions| == 2
    ensures |Protocols| == 7 && |AwsRegions| == 23
    ensures "us-west-2" in AwsRegions && "all" in Protocols
  {
  }

  /** NETWORK_REGEX `[a-z0-9-]+`. */
  predicate NetworkChar(c: char) { 'a' <= c <= 'z' || IsDigit(c) || c == '-' }

  predicate NetworkName(s: string)
  {
    |s| >= 1 && forall i :: 0 <= i < |s| ==> NetworkChar(s[i])
  }

  /** "default", the network of the sample policies, is a valid network name. */
  lemma DefaultNetworkName()
    ensures NetworkName("default")
  {
    var s := "default";
    assert forall i :: 0 <= i < |s| ==> 'a' <= s[i] <= 'z';
  }

  /** PORT_REGEX: `[0-9]{1,4}|[1-5][0-9]{4}|6[0-4][0-9]{3}|65[0-4][0-9]{2}|655[0-2][0-9]|6553[0-5]`,
      one disjunct per alternative. */
  predicate PortNumber(s: string)
  {
    AllDigits(s) &&
    ( 1 <= |s| <= 4
    || (|s| == 5 && '1' <= s[0] <= '5')
    || (|s| == 5 && s[0] == '6' && '0' <= s[1] <= '4')
    || (|s| == 5 && s[0] == '6' && s[1] == '5' && '0' <= s[2] <= '4')
    || (|s| == 5 && s[0] == '6' && s[1] == '5' && s[2] == '5' && '0' <= s[3] <= '2')
    || (|s| == 5 && s[0] == '6' && s[1] == '5' && s[2] == '5' && s[3] == '3' && '0' <= s[4] <= '5'))
  }

  /** One octet of IP_REGEX: `[0-9]|[1-9][0-9]|1[0-9]{2}|2[0-4][0-9]|25[0-5]`. */
  predicate OctetToken(s: string)
  {
    AllDigits(s) &&
    ( |s| == 1
    || (|s| == 2 && s[0] != '0')
    || (|s| == 3 && s[0] == '1')
    || (|s| == 3 && s[0] == '2' && '0' <= s[1] <= '4')
    || (|s| == 3 && s[0] == '2' && s[1] == '5' && '0' <= s[2] <= '5'))
  }

  /** The prefix length of IP_REGEX: `[0-9]|[1-2][0-9]|3[0-2]`. */
  predicate PrefixToken(s: string)
  {
    AllDigits(s) &&
    ( |s| == 1
    || (|s| == 2 && '1' <= s[0] <= '2')
    || (|s| == 2 && s[0] == '3' && '0' <= s[1] <= '2'))
  }

  /** IP_REGEX `(octet\.){3}octet(/prefix)`. Octets and prefix are digits only, so the
      separators '.' and '/' occur exactly where the expression puts them, and splitting
      on them recovers the parts. */
  predicate IpCidr(s: string)
  {
    var parts := Split(s, '/');
    |parts| == 2 && PrefixToken(parts[1]) &&
    var octets := Split(parts[0], '.');
    |octets| == 4 && forall k :: 0 <= k < 4 ==> OctetToken(octets[k])
  }

  /** TAG_REGEX `[a-z0-9A-Z.-]+=[a-z0-9A-Z.-]+`; '=' is outside the class, so there is exactly one. */
  predicate TagChar(c: char) { 'a' <= c <= 'z' || 'A' <= c <= 'Z' || IsDigit(c) || c == '.' || c == '-' }

  predicate TagPart(s: string) { |s| >= 1 && forall i :: 0 <= i < |s| ==> TagChar(s[i]) }

  predicate TagToken(s: string)
  {
    var parts := Split(s, '=');
    |parts| == 2 && TagPart(parts[0]) && TagPart(parts[1])
  }

  /** PORT_REGEX accepts exactly 1-4 digits (leading zeros allowed) or 5 digits worth
      10000..65535; either way the value is a port number 0..65535. */
  lemma PortNumberBounds(s: string)
    ensures PortNumber(s) <==>
      AllDigits(s) && 1 <= |s| <= 5 && DecValue(s) <= 65535 && (|s| == 5 ==> 10000 <= DecValue(s))
  {
    if AllDigits(s) && 1 <= |s| <= 4 {
      DecValueBound(s);
      assert Pow10(1) == 10 && Pow10(2) == 100 && Pow10(3) == 1000 && Pow10(4) == 10000;
    }
    if AllDigits(s) && |s| == 5 {
      DecValueFive(s);
    }
  }

  /** An octet is 0..255 written without leading zeros. */
  lemma OctetBounds(s: string)
    ensures OctetToken(s) <==>
      AllDigits(s) && 1 <= |s| <= 3 && (|s| >= 2 ==> s[0] != '0') && DecValue(s) <= 255
  {
    if AllDigits(s) && 1 <= |s| <= 3 {
      DecValueShort(s);
    }
  }

  /** A prefix length is 0..32 written without leading zeros. */
  lemma PrefixBounds(s: string)
    ensures PrefixToken(s) <==>
      AllDigits(s) && 1 <= |s| <= 2 && (|s| == 2 ==> s[0] != '0') && DecValue(s) <= 32
  {
    if AllDigits(s) && 1 <= |s| <= 2 {
      DecValueShort(s);
    }
  }

  lemma DigitsHaveNo(s: string, c: char)
    requires AllDigits(s) && !IsDigit(c)
    ensures c !in s
  {
  }

  /** Every string of the form A.B.C.D/p with octets A..D and prefix p matches IP_REGEX. */
  lemma IpCidrIntro(a: string, b: string, c: string, d: string, p: string)
    requires OctetToken(a) && OctetToken(b) && OctetToken(c) && OctetToken(d) && PrefixToken(p)
    ensures IpCidr(a + "." + b + "." + c + "." + d + "/" + p)
  {
    var addr := a + "." + b + "." + c + "." + d;
    JoinFour(a, b, c, d, '.');
    DigitsHaveNo(a, '.'); DigitsHaveNo(b, '.'); DigitsHaveNo(c, '.'); DigitsHaveNo(d, '.');
    DigitsHaveNo(a, '/'); DigitsHaveNo(b, '/'); DigitsHaveNo(c, '/'); DigitsHaveNo(d, '/');
    DigitsHaveNo(p, '/');
    assert '/' !in addr;
    JoinSplit([a, b, c, d], '.');
    SplitCons(addr, '/', p);
    SplitNoDelimiter(p, '/');
    assert addr + "/" + p == addr + ['/'] + p;
  }

  /** Conversely, a string matching IP_REGEX is four octets joined by '.', then '/', then a prefix. */
  lemma IpCidrParts(s: string)
    requires IpCidr(s)
    ensures var parts := Split(s, '/'); var o := Split(parts[0], '.');
      s == o[0] + "." + o[1] + "." + o[2] + "." + o[3] + "/" + parts[1] &&
      (forall k :: 0 <= k < 4 ==> AllDigits(o[k]) && DecValue(o[k]) <= 255) &&
      AllDigits(parts[1]) && DecValue(parts[1]) <= 32
  {
    var parts := Split(s, '/');
    var o := Split(parts[0], '.');
    SplitJoin(s, '/');
    SplitJoin(parts[0], '.');
    assert parts == [parts[0], parts[1]];
    JoinTwo(parts[0], parts[1], '/');
    assert o == [o[0], o[1], o[2], o[3]];
    JoinFour(o[0], o[1], o[2], o[3], '.');
    forall k | 0 <= k < 4
      ensures AllDigits(o[k]) && DecValue(o[k]) <= 255
    {
      OctetBounds(o[k]);
    }
    PrefixBounds(parts[1]);
  }

  /** The prefix is mandatory. */
  lemma IpCidrNeedsPrefix(a: string, b: string, c: string, d: string)
    requires AllDigits(a) && AllDigits(b) && AllDigits(c) && AllDigits(d)
    ensures !IpCidr(a + "." + b + "." + c + "." + d)
  {
    var addr := a + "." + b + "." + c + "." + d;
    DigitsHaveNo(a, '/'); DigitsHaveNo(b, '/'); DigitsHaveNo(c, '/'); DigitsHaveNo(d, '/');
    assert '/' !in addr;
    SplitNoDelimiter(addr, '/');
  }

  /** Splitting `A.B.C.D/p` recovers the four octets and the prefix. */
  lemma IpCidrSplit(a: string, b: string, c: string, d: string, p: string)
    requires AllDigits(a) && AllDigits(b) && AllDigits(c) && AllDigits(d)
    ensures var s := a + "." + b + "." + c + "." + d + "/" + p;
      Split(s, '/') == [a + "." + b + "." + c + "." + d] + Split(p, '/') &&
      Split(a + "." + b + "." + c + "." + d, '.') == [a, b, c, d]
  {
    var addr := a + "." + b + "." + c + "." + d;
    JoinFour(a, b, c, d, '.');
    DigitsHaveNo(a, '.'); DigitsHaveNo(b, '.'); DigitsHaveNo(c, '.'); DigitsHaveNo(d, '.');
    DigitsHaveNo(a, '/'); DigitsHaveNo(b, '/'); DigitsHaveNo(c, '/'); DigitsHaveNo(d, '/');
    assert '/' !in addr;
    JoinSplit([a, b, c, d], '.');
    SplitCons(addr, '/', p);
    assert addr + "/" + p == addr + ['/'] + p;
  }

  /** A string `A.B.C.D/p` of digit groups matches IP_REGEX only when each of A..D is an
      octet, so an octet above 255 is refused even when the rest is well formed. */
  lemma IpCidrOctets(a: string, b: string, c: string, d: string, p: string)
    requires AllDigits(a) && AllDigits(b) && AllDigits(c) && AllDigits(d)
    ensures IpCidr(a + "." + b + "." + c + "." + d + "/" + p) ==>
      OctetToken(a) && OctetToken(b) && OctetToken(c) && OctetToken(d)
  {
    var addr := a + "." + b + "." + c + "." + d;
    var s := addr + "/" + p;
    IpCidrSplit(a, b, c, d, p);
    var parts := Split(s, '/');
    assert parts[0] == addr;
    var octets := Split(parts[0], '.');
    assert octets == [a, b, c, d];
    if IpCidr(s) {
      assert OctetToken(octets[0]) && OctetToken(octets[1]);
      assert OctetToken(octets[2]) && OctetToken(octets[3]);
    }
  }

  /** The address of the invalid-policy test, `192.22.6.355`, is refused (it has no prefix
      and its last octet exceeds 255). */
  lemma InvalidTestAddressRejected(s: string)
    ensures s == "192.22.6.355" ==> !IpCidr(s)
    ensures s == "192.22.6.355/24" ==> !IpCidr(s)
  {
    var a, b, c, d := "192", "22", "6", "355";
    if s == "192.22.6.355" || s == "192.22.6.355/24" {
      assert AllDigits(a) && AllDigits(b) && AllDigits(c) && AllDigits(d) && AllDigits("24");
      assert DecValue(d) == 355 by { DecValueShort(d); }
      IpCidrNeedsPrefix(a, b, c, d);
      IpCidrOctets(a, b, c, d, "24");
      OctetBounds(d);
      if s == "192.22.6.355" {
        assert s == a + "." + b + "." + c + "." + d;
      } else {
        assert s == a + "." + b + "." + c + "." + d + "/" + "24";
      }
    }
  }

  /** TAG_REGEX accepts exactly `key=value` with both sides non-empty over `[a-zA-Z0-9.-]`. */
  lemma TagTokenShape(s: string)
    ensures TagToken(s) ==> var parts := Split(s, '=');
      s == parts[0] + "=" + parts[1] && TagPart(parts[0]) && TagPart(parts[1])
  {
    if TagToken(s) {
      var parts := Split(s, '=');
      SplitJoin(s, '=');
      assert parts[1..] == [parts[1]];
    }
  }

  lemma TagTokenIntro(k: string, v: string)
    requires TagPart(k) && TagPart(v)
    ensures TagToken(k + "=" + v)
  {
    assert '=' !in k && '=' !in v;
    SplitCons(k, '=', v);
    SplitNoDelimiter(v, '=');
    assert k + "=" + v == k + ['='] + v;
  }
}

/** `getSamplePolicy` of src/main/kotlin/policymig/util/PolicyUtils.kt: a fixture built
    through the validating constructors. */
module PolicyFixtures {
  import opened Wrappers
  import opened Text
  import opened PolicyUtils
  import opened PolicyModel

  lemma SamplePortTokensValid(port: string)
    ensures port == "8080" || port == "0" ==> CheckPortToken(port).Pass?
    ensures port == "5500-5600" ==> CheckPortToken(port).Pass?
  {
    if port == "8080" || port == "0" {
      SplitNoDelimiter(port, '-');
      assert PortNumber(port);
    } else if port == "5500-5600" {
      var a, b := "5500", "5600";
      assert port == a + "-" + b;
      SplitRange(a, b);
      assert DecValue(a) == 5500 by { DecValueFour(a); }
      assert DecValue(b) == 5600 by { DecValueFour(b); }
      assert PortNumber(a) && PortNumber(b);
    }
  }

  lemma SampleRuleValid(r: RuleFields)
    requires r == RuleFields(["8080", "5500-5600"], "allow", "tcp") || r == RuleFields(["0"], "allow", "udp")
    ensures CheckRule(r).Pass?
  {
    if r.protocol == "tcp" {
      SamplePortTokensValid("8080");
      SamplePortTokensValid("5500-5600");
      assert r.ports[0] == "8080" && r.ports[1] == "5500-5600";
    } else {
      SamplePortTokensValid("0");
      assert r.ports[0] == "0";
    }
    CheckPortsMeaning(r.ports);
  }

  /** The sample's tcp rule (ports 8080 and 5500-5600) or its udp rule (port 0), both allow. */
  function SampleRule(tcp: bool): (r: Rule)
    ensures r.action == "allow" && r.protocol == (if tcp then "tcp" else "udp")
  {
    var f := if tcp then RuleFields(["8080", "5500-5600"], "allow", "tcp") else RuleFields(["0"], "allow", "udp");
    SampleRuleValid(f);
    f
  }

  /** The two rules every sample policy carries. */
  function SampleRules(): seq<Rule>
  {
    [SampleRule(true), SampleRule(false)]
  }

  const SampleTags: seq<Tag> := [("app", "App"), ("name", "Name")]

  /** The fields of the sample policy; `ingressShape` chooses which side carries the tags. */
  function SampleFields(target: string, direction: string, ingressShape: bool): PolicyFields
  {
    PolicyFields("test-policy", "Testing policy", target, direction,
      if target == "aws" then None else Some("default"),
      if target == "aws" then Some("us-west-2") else None,
      None, if ingressShape then Some(SampleTags) else None,
      None, if ingressShape then None else Some(SampleTags),
      SampleRules())
  }

  /** `getSamplePolicy(target, direction)` as written: the direction is checked
      case-insensitively, but the tag side is chosen by a case-sensitive `== "INGRESS"`. */
  function SamplePolicy(target: string, direction: string): Result<Policy, PolicyError>
  {
    if target !in Targets then Failure(InvalidTarget)
    else if ToUpper(direction) !in Directions then Failure(InvalidDirection)
    else NewPolicy(SampleFields(target, direction, direction == "INGRESS"))
  }

  /** The same fixture choosing the tag side by the upper-cased direction, as the
      case-insensitive check before it intends. */
  function SamplePolicyCorrected(target: string, direction: string): Result<Policy, PolicyError>
  {
    if target !in Targets then Failure(InvalidTarget)
    else if ToUpper(direction) !in Directions then Failure(InvalidDirection)
    else NewPolicy(SampleFields(target, direction, ToUpper(direction) == "INGRESS"))
  }

  lemma SampleRulesShape()
    ensures |SampleRules()| == 2
    ensures forall i :: 0 <= i < 2 ==> SampleRules()[i].action == "allow" && SampleRules()[i].protocol != "all"
  {
    var rs := SampleRules();
    assert rs[0].protocol == "tcp" && rs[1].protocol == "udp";
    assert "tcp"[0] != "all"[0] && "udp"[0] != "all"[0];
    forall i | 0 <= i < 2 ensures rs[i].action == "allow" && rs[i].protocol != "all" {
    }
  }

  /** The sample fields are a valid policy when the tags sit on the side the direction reads from ... */
  lemma SampleFieldsValid(target: string, direction: string, ingressShape: bool)
    requires target in Targets && ToUpper(direction) in Directions
    requires ingressShape <==> ToUpper(direction) == "INGRESS"
    ensures PolicyInvariant(SampleFields(target, direction, ingressShape))
  {
    var f := SampleFields(target, direction, ingressShape);
    var dir := ToUpper(direction);
    assert dir in Directions && f.target in Targets;
    assert dir == "INGRESS" ==> (f.sourceIps.Some? || f.sourceTags.Some?) && f.targetIps.None? && f.targetTags.None?;
    assert dir == "EGRESS" ==> (f.targetIps.Some? || f.targetTags.Some?) && f.sourceIps.None? && f.sourceTags.None?;
    SampleRulesShape();
    assert forall i :: 0 <= i < |f.rules| ==> f.rules[i].protocol != "all" && f.rules[i].action == "allow";
    DefaultNetworkName();
    assert f.region.Some? ==> f.region.value in AwsRegions;
  }

  /** ... and invalid when they sit on the other side. */
  lemma SampleFieldsInvalid(target: string, direction: string, ingressShape: bool)
    requires target in Targets && ToUpper(direction) in Directions
    requires !(ingressShape <==> ToUpper(direction) == "INGRESS")
    ensures !PolicyInvariant(SampleFields(target, direction, ingressShape))
  {
  }

  /** As written, the fixture is built exactly for a known target and either the exact
      direction "INGRESS" or any spelling of "EGRESS". */
  lemma SamplePolicySucceeds(target: string, direction: string)
    ensures SamplePolicy(target, direction).Success? <==>
      target in Targets && (direction == "INGRESS" || ToUpper(direction) == "EGRESS")
    ensures SamplePolicy(target, direction).Success? ==>
      var p := SamplePolicy(target, direction).value;
      p.target == target && p.direction == direction && |p.rules| == 2 &&
      (target == "aws" ==> p.region == Some("us-west-2") && p.network.None?) &&
      (target != "aws" ==> p.region.None? && p.network == Some("default"))
  {
    if direction == "INGRESS" {
      assert ToUpper(direction) == "INGRESS";
    }
    if target in Targets && ToUpper(direction) in Directions {
      if direction == "INGRESS" || ToUpper(direction) == "EGRESS" {
        SampleFieldsValid(target, direction, direction == "INGRESS");
        SampleRulesShape();
      } else {
        SampleFieldsInvalid(target, direction, direction == "INGRESS");
      }
    }
  }

  /** The discrepancy: lower-case "ingress" passes the direction check and then fails
      validation, because the tags were put on the target side. */
  lemma SamplePolicyLowercaseIngressFails()
    ensures ToUpper("ingress") in Directions
    ensures SamplePolicy("gcp", "ingress") == Failure(IngressSelectorMissing)
  {
    LowercaseIngressUpper();
    LowercaseIngressFieldsRefused();
    assert "ingress"[0] != "INGRESS"[0];
  }

  lemma LowercaseIngressUpper()
    ensures ToUpper("ingress") == "INGRESS"
  {
  }

  /** The fields the as-written fixture builds for "ingress": tags on the target side. */
  lemma LowercaseIngressFieldsRefused()
    ensures CheckPolicy(SampleFields("gcp", "ingress", false)) == Fail(IngressSelectorMissing)
  {
    LowercaseIngressUpper();
    var f := SampleFields("gcp", "ingress", false);
    assert f.targetTags.Some?;
    assert CheckDirection(f).Pass?;
    assert CheckSelectors(f) == Fail(IngressSelectorMissing);
  }

  /** Corrected, every known target and every spelling of a known direction yields a policy. */
  lemma SamplePolicyCorrectedSucceeds(target: string, direction: string)
    ensures SamplePolicyCorrected(target, direction).Success? <==>
      target in Targets && ToUpper(direction) in Directions
  {
    if target in Targets && ToUpper(direction) in Directions {
      SampleFieldsValid(target, direction, ToUpper(direction) == "INGRESS");
    }
  }
}
