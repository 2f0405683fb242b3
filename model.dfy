/** The `Policy` and `Rule` records of src/main/kotlin/policymig/model/Models.kt. Both
    Kotlin classes run `validate()` in `init`, so no invalid instance can exist: the model
    keeps the raw field records (`RuleFields`, `PolicyFields`) and the subset types `Rule`
    and `Policy` of those that pass validation. Construction (`NewRule`, `NewPolicy`)
    returns the validation error instead of throwing it. */
module PolicyModel {
  import opened Wrappers
  import opened Text
  import opened PolicyUtils

  /** A `key to value` pair of a tag selector. */
  type Tag = (string, string)

  // ---------------------------------------------------------------- Rule

  datatype RuleFields = RuleFields(ports: seq<string>, action: string, protocol: string)

  datatype RuleError =
    | PortOutOfRange(port: string)       // a piece does not match PORT_REGEX
    | PortRangeDescending(port: string)  // first piece greater than the second
    | InvalidAction(action: string)
    | InvalidProtocol(protocol: string)

  /** One port token: every '-'-separated piece must match PORT_REGEX, and when there
      are two or more pieces the first may not exceed the second (later pieces are not compared). */
  function CheckPortToken(port: string): Outcome<RuleError>
  {
    var splits := Split(port, '-');
    if exists k :: 0 <= k < |splits| && !PortNumber(splits[k]) then Fail(PortOutOfRange(port))
    else if |splits| == 1 then Pass
    else if DecValue(splits[0]) <= DecValue(splits[1]) then Pass
    else Fail(PortRangeDescending(port))
  }

  /** The port loop of `Rule.validate`: the first bad token, in list order, is reported. */
  function CheckPorts(ports: seq<string>): Outcome<RuleError>
    decreases |ports|
  {
    if ports == [] then Pass else Then(CheckPortToken(ports[0]), CheckPorts(ports[1..]))
  }

  /** `Rule.validate`: ports, then action, then protocol. */
  function CheckRule(r: RuleFields): Outcome<RuleError>
  {
    Then(CheckPorts(r.ports),
      Then(if r.action in Actions then Pass else Fail(InvalidAction(r.action)),
           if r.protocol in Protocols then Pass else Fail(InvalidProtocol(r.protocol))))
  }

  type Rule = r: RuleFields | CheckRule(r).Pass? witness RuleFields([], "allow", "tcp")

  /** What a port token means: one to five decimal pieces, each a port number 0..65535
      (five-digit pieces from 10000), the first at most the second when there are two or more. */
  predicate PortTokenSpec(port: string)
  {
    var splits := Split(port, '-');
    (forall k :: 0 <= k < |splits| ==>
      AllDigits(splits[k]) && 1 <= |splits[k]| <= 5 && DecValue(splits[k]) <= 65535 &&
      (|splits[k]| == 5 ==> 10000 <= DecValue(splits[k]))) &&
    (|splits| >= 2 ==> DecValue(splits[0]) <= DecValue(splits[1]))
  }

  lemma PortTokenMeaning(port: string)
    ensures CheckPortToken(port).Pass? <==> PortTokenSpec(port)
  {
    var splits := Split(port, '-');
    forall k | 0 <= k < |splits| ensures PortNumber(splits[k]) <==>
      AllDigits(splits[k]) && 1 <= |splits[k]| <= 5 && DecValue(splits[k]) <= 65535 &&
      (|splits[k]| == 5 ==> 10000 <= DecValue(splits[k]))
    {
      PortNumberBounds(splits[k]);
    }
  }

  /** The pieces of `a-b` when neither side holds a dash. */
  lemma SplitRange(a: string, b: string)
    requires '-' !in a && '-' !in b
    ensures Split(a + "-" + b, '-') == [a, b]
  {
    SplitCons(a, '-', b);
    SplitNoDelimiter(b, '-');
    assert a + "-" + b == a + ['-'] + b;
  }

  /** Out-of-range, negative and descending port tokens are rejected. */
  lemma PortTokensRejected(port: string)
    ensures port == "70000" ==> CheckPortToken(port) == Fail(PortOutOfRange(port))
    ensures port == "-1" ==> CheckPortToken(port) == Fail(PortOutOfRange(port))
    ensures port == "5600-5500" ==> CheckPortToken(port) == Fail(PortRangeDescending(port))
  {
    if port == "70000" {
      SplitNoDelimiter(port, '-');
      assert !PortNumber(Split(port, '-')[0]);
    } else if port == "-1" {
      var a, b := "", "1";
      assert port == a + "-" + b;
      SplitRange(a, b);
      assert !PortNumber(Split(port, '-')[0]);
    } else if port == "5600-5500" {
      var a, b := "5600", "5500";
      assert port == a + "-" + b;
      SplitRange(a, b);
      assert DecValue(a) == 5600 by { DecValueFour(a); }
      assert DecValue(b) == 5500 by { DecValueFour(b); }
      assert PortNumber(a) && PortNumber(b);
    }
  }

  /** The bottom port, the top port and an ascending range are accepted. */
  lemma PortTokensAccepted(port: string)
    ensures port == "0" ==> CheckPortToken(port).Pass?
    ensures port == "65535" ==> CheckPortToken(port).Pass?
    ensures port == "100-200" ==> CheckPortToken(port).Pass?
  {
    if port == "0" || port == "65535" {
      SplitNoDelimiter(port, '-');
      assert PortNumber(port);
    } else if port == "100-200" {
      var a, b := "100", "200";
      assert port == a + "-" + b;
      SplitRange(a, b);
      assert DecValue(a) == 100 by { DecValueShort(a); }
      assert DecValue(b) == 200 by { DecValueShort(b); }
      assert PortNumber(a) && PortNumber(b);
    }
  }

  /** A three-piece token is accepted too, since only the first two pieces are compared. */
  lemma ThreePieceTokenAccepted(port: string)
    requires port == "1-2-3"
    ensures |Split(port, '-')| == 3
    ensures CheckPortToken(port).Pass?
  {
    var a, b, c := "1", "2", "3";
    SplitRange(b, c);
    SplitCons(a, '-', b + "-" + c);
    assert a + ['-'] + (b + "-" + c) == port;
    var splits := Split(port, '-');
    assert splits == [a, b, c];
    assert PortNumber(a) && PortNumber(b) && PortNumber(c);
    assert DecValue(a) == 1 by { DecValueShort(a); }
    assert DecValue(b) == 2 by { DecValueShort(b); }
  }

  lemma {:induction false} CheckPortsMeaning(ports: seq<string>)
    ensures CheckPorts(ports).Pass? <==> forall i :: 0 <= i < |ports| ==> CheckPortToken(ports[i]).Pass?
    decreases |ports|
  {
    if ports != [] {
      CheckPortsMeaning(ports[1..]);
      assert forall i :: 1 <= i < |ports| ==> ports[i] == ports[1..][i - 1];
    }
  }

  /** A rule is valid exactly when every port token is, the action is allow or deny and
      the protocol is one of the seven; in particular `all` with any ports is a valid Rule. */
  lemma RuleValidMeaning(r: RuleFields)
    ensures CheckRule(r).Pass? <==>
      (forall i :: 0 <= i < |r.ports| ==> PortTokenSpec(r.ports[i])) &&
      r.action in Actions && r.protocol in Protocols
  {
    CheckPortsMeaning(r.ports);
    forall i | 0 <= i < |r.ports| ensures CheckPortToken(r.ports[i]).Pass? <==> PortTokenSpec(r.ports[i]) {
      PortTokenMeaning(r.ports[i]);
    }
  }

  /** The `Rule` constructor: succeeds with exactly the given fields, or reports why not. */
  function NewRule(ports: seq<string>, action: string, protocol: string): (r: Result<Rule, RuleError>)
    ensures r.Success? <==>
      (forall i :: 0 <= i < |ports| ==> PortTokenSpec(ports[i])) && action in Actions && protocol in Protocols
    ensures r.Success? ==> r.value.ports == ports && r.value.action == action && r.value.protocol == protocol
  {
    var f := RuleFields(ports, action, protocol);
    RuleValidMeaning(f);
    if CheckRule(f).Pass? then Success(f) else Failure(CheckRule(f).error)
  }

  /** An unknown action is refused when the Rule is built, before any Policy exists. */
  lemma InvalidActionRefused(ports: seq<string>, protocol: string)
    ensures NewRule(ports, "invalid", protocol).Failure?
  {
  }

  // ---------------------------------------------------------------- Policy

  datatype PolicyFields = PolicyFields(
    name: string,
    description: string,
    target: string,
    direction: string,
    network: Option<string>,
    region: Option<string>,
    sourceIps: Option<seq<string>>,
    sourceTags: Option<seq<Tag>>,
    targetIps: Option<seq<string>>,
    targetTags: Option<seq<Tag>>,
    rules: seq<Rule>)

  datatype PolicyError =
    | InvalidDirection
    | IngressSelectorMissing       // "Ingress requires either source IPs or tags be set!"
    | EgressSelectorMissing        // "Egress requires either target IPs or tags be set!"
    | InvalidTarget
    | NetworkMissing
    | ProtocolNotForGcp(protocol: string)
    | RegionMissing
    | ProtocolNotForAws(protocol: string)
    | ActionNotAllowForAws
    | PortsNotZeroForAll
    | InvalidRegion(region: string)
    | InvalidNetworkName
    | InvalidIp(ip: string)

  function CheckDirection(p: PolicyFields): Outcome<PolicyError>
  {
    if ToUpper(p.direction) in Directions then Pass else Fail(InvalidDirection)
  }

  /** Ingress needs a source side (IPs or tags, both allowed) and no target side; egress the mirror image. */
  function CheckSelectors(p: PolicyFields): Outcome<PolicyError>
  {
    if ToUpper(p.direction) == "INGRESS" then
      if (p.sourceIps.Some? || p.sourceTags.Some?) && p.targetIps.None? && p.targetTags.None? then Pass
      else Fail(IngressSelectorMissing)
    else
      if (p.targetIps.Some? || p.targetTags.Some?) && p.sourceIps.None? && p.sourceTags.None? then Pass
      else Fail(EgressSelectorMissing)
  }

  /** The GCP rule loop: no rule may use protocol `all`. */
  function CheckGcpRules(rules: seq<Rule>): Outcome<PolicyError>
    decreases |rules|
  {
    if rules == [] then Pass
    else if rules[0].protocol != "all" then CheckGcpRules(rules[1..])
    else Fail(ProtocolNotForGcp(rules[0].protocol))
  }

  /** The AWS rule loop, as written: the protocol test is the disjunction
      `p != "sctp" || p != "esp" || p != "ah"`, then the action must be allow, then
      protocol `all` requires the port list to be exactly ["0"]. */
  function CheckAwsRules(rules: seq<Rule>): Outcome<PolicyError>
    decreases |rules|
  {
    if rules == [] then Pass
    else
      var r := rules[0];
      if !(r.protocol != "sctp" || r.protocol != "esp" || r.protocol != "ah") then Fail(ProtocolNotForAws(r.protocol))
      else if r.action != "allow" then Fail(ActionNotAllowForAws)
      else if r.protocol == "all" && !(|r.ports| == 1 && r.ports[0] == "0") then Fail(PortsNotZeroForAll)
      else CheckAwsRules(rules[1..])
  }

  /** `require(target in TARGETS)` followed by the `when (target)` block. */
  function CheckTarget(p: PolicyFields): Outcome<PolicyError>
  {
    if p.target !in Targets then Fail(InvalidTarget)
    else if p.target == "gcp" then
      Then(if p.network.Some? then Pass else Fail(NetworkMissing), CheckGcpRules(p.rules))
    else
      Then(if p.region.Some? then Pass else Fail(RegionMissing), CheckAwsRules(p.rules))
  }

  /** The region must be a known AWS region whenever it is given, whatever the target. */
  function CheckRegion(p: PolicyFields): Outcome<PolicyError>
  {
    if p.region.Some? && p.region.value !in AwsRegions then Fail(InvalidRegion(p.region.value)) else Pass
  }

  function CheckNetwork(p: PolicyFields): Outcome<PolicyError>
  {
    if p.network.Some? && !NetworkName(p.network.value) then Fail(InvalidNetworkName) else Pass
  }

  function CheckIpList(ips: seq<string>): Outcome<PolicyError>
    decreases |ips|
  {
    if ips == [] then Pass
    else if IpCidr(ips[0]) then CheckIpList(ips[1..])
    else Fail(InvalidIp(ips[0]))
  }

  function CheckIps(ips: Option<seq<string>>): Outcome<PolicyError>
  {
    if ips.Some? then CheckIpList(ips.value) else Pass
  }

  /** `Policy.validate`, check by check in the order of the source. */
  function CheckPolicy(p: PolicyFields): Outcome<PolicyError>
  {
    Then(CheckDirection(p),
    Then(CheckSelectors(p),
    Then(CheckTarget(p),
    Then(CheckRegion(p),
    Then(CheckNetwork(p),
    Then(CheckIps(p.sourceIps), CheckIps(p.targetIps)))))))
  }

  type Policy = p: PolicyFields | CheckPolicy(p).Pass?
    witness PolicyFields("", "", "gcp", "INGRESS", Some("default"), None, Some([]), None, None, None, [])

  /** The policy invariant, stated declaratively. */
  predicate PolicyInvariant(p: PolicyFields)
  {
    var dir := ToUpper(p.direction);
    dir in Directions &&
    (dir == "INGRESS" ==> (p.sourceIps.Some? || p.sourceTags.Some?) && p.targetIps.None? && p.targetTags.None?) &&
    (dir == "EGRESS" ==> (p.targetIps.Some? || p.targetTags.Some?) && p.sourceIps.None? && p.sourceTags.None?) &&
    p.target in Targets &&
    (p.target == "gcp" ==> p.network.Some? && forall i :: 0 <= i < |p.rules| ==> p.rules[i].protocol != "all") &&
    (p.target == "aws" ==>
      p.region.Some? &&
      forall i :: 0 <= i < |p.rules| ==>
        p.rules[i].action == "allow" && (p.rules[i].protocol == "all" ==> p.rules[i].ports == ["0"])) &&
    (p.region.Some? ==> p.region.value in AwsRegions) &&
    (p.network.Some? ==> NetworkName(p.network.value)) &&
    (p.sourceIps.Some? ==> forall i :: 0 <= i < |p.sourceIps.value| ==> IpCidr(p.sourceIps.value[i])) &&
    (p.targetIps.Some? ==> forall i :: 0 <= i < |p.targetIps.value| ==> IpCidr(p.targetIps.value[i]))
  }

  lemma {:induction false} CheckGcpRulesMeaning(rules: seq<Rule>)
    ensures CheckGcpRules(rules).Pass? <==> forall i :: 0 <= i < |rules| ==> rules[i].protocol != "all"
    decreases |rules|
  {
    if rules != [] {
      CheckGcpRulesMeaning(rules[1..]);
      assert forall i :: 1 <= i < |rules| ==> rules[i] == rules[1..][i - 1];
    }
  }

  lemma {:induction false} CheckAwsRulesMeaning(rules: seq<Rule>)
    ensures CheckAwsRules(rules).Pass? <==>
      forall i :: 0 <= i < |rules| ==> rules[i].action == "allow" && (rules[i].protocol == "all" ==> rules[i].ports == ["0"])
    decreases |rules|
  {
    if rules != [] {
      CheckAwsRulesMeaning(rules[1..]);
      assert forall i :: 1 <= i < |rules| ==> rules[i] == rules[1..][i - 1];
      var r := rules[0];
      assert (|r.ports| == 1 && r.ports[0] == "0") <==> r.ports == ["0"];
    }
  }

  /** The AWS protocol test never rejects anything: sctp, esp and ah rules pass it, and an
      AWS rule list fails only on its action or on `all` with ports other than ["0"]. */
  lemma {:induction false} AwsProtocolCheckNeverFires(rules: seq<Rule>)
    ensures CheckAwsRules(rules) == Pass || CheckAwsRules(rules) == Fail(ActionNotAllowForAws)
         || CheckAwsRules(rules) == Fail(PortsNotZeroForAll)
    decreases |rules|
  {
    if rules != [] {
      AwsProtocolCheckNeverFires(rules[1..]);
    }
  }

  lemma {:induction false} CheckIpListMeaning(ips: seq<string>)
    ensures CheckIpList(ips).Pass? <==> forall i :: 0 <= i < |ips| ==> IpCidr(ips[i])
    decreases |ips|
  {
    if ips != [] {
      CheckIpListMeaning(ips[1..]);
      assert forall i :: 1 <= i < |ips| ==> ips[i] == ips[1..][i - 1];
    }
  }

  /** The validator accepts exactly the policies satisfying the invariant. */
  lemma CheckPolicyMeaning(p: PolicyFields)
    ensures CheckPolicy(p).Pass? <==> PolicyInvariant(p)
  {
    CheckGcpRulesMeaning(p.rules);
    CheckAwsRulesMeaning(p.rules);
    if p.sourceIps.Some? { CheckIpListMeaning(p.sourceIps.value); }
    if p.targetIps.Some? { CheckIpListMeaning(p.targetIps.value); }
  }

  /** The source side holds a selector (IPs or tags). */
  predicate SourceSet(p: PolicyFields) { p.sourceIps.Some? || p.sourceTags.Some? }

  predicate TargetSet(p: PolicyFields) { p.targetIps.Some? || p.targetTags.Some? }

  /** A valid policy populates exactly one selector side, the one its direction demands,
      and carries the network or region its provider needs. */
  lemma SelectorSide(p: Policy)
    ensures SourceSet(p) <==> ToUpper(p.direction) == "INGRESS"
    ensures TargetSet(p) <==> !SourceSet(p)
    ensures p.target == "gcp" ==> p.network.Some?
    ensures p.target == "aws" ==> p.region.Some?
  {
    CheckPolicyMeaning(p);
  }

  /** The `Policy` constructor: succeeds, with the fields exactly as given (the direction is
      not normalised), precisely when the invariant holds. */
  function NewPolicy(f: PolicyFields): (r: Result<Policy, PolicyError>)
    ensures r.Success? <==> PolicyInvariant(f)
    ensures r.Success? ==> r.value == f
  {
    CheckPolicyMeaning(f);
    if CheckPolicy(f).Pass? then Success(f) else Failure(CheckPolicy(f).error)
  }

  // ---------------------------------------------------------------- translatePolicy

  /** The rules `translatePolicy` keeps: allow rules over tcp, udp or icmp. */
  predicate Translatable(r: Rule)
  {
    r.action == "allow" && (r.protocol == "tcp" || r.protocol == "udp" || r.protocol == "icmp")
  }

  /** `rules.filter { ... }`: the translatable rules, in their original order. */
  function TranslatableRules(rules: seq<Rule>): seq<Rule>
    decreases |rules|
  {
    if rules == [] then []
    else (if Translatable(rules[0]) then [rules[0]] else []) + TranslatableRules(rules[1..])
  }

  /** A rule survives the filter iff it is translatable. */
  lemma {:induction false} TranslatableRulesMembers(rules: seq<Rule>)
    ensures forall r :: r in TranslatableRules(rules) <==> r in rules && Translatable(r)
    decreases |rules|
  {
    if rules != [] {
      TranslatableRulesMembers(rules[1..]);
      assert rules == [rules[0]] + rules[1..];
    }
  }

  /** The filter works element by element, so it keeps the order of the rules:
      filtering a concatenation concatenates the filtered parts. */
  lemma {:induction false} TranslatableRulesAppend(a: seq<Rule>, b: seq<Rule>)
    ensures TranslatableRules(a + b) == TranslatableRules(a) + TranslatableRules(b)
    decreases |a|
  {
    if a == [] {
      assert a + b == b;
    } else {
      assert (a + b)[0] == a[0];
      assert (a + b)[1..] == a[1..] + b;
      TranslatableRulesAppend(a[1..], b);
    }
  }

  /** Filtering twice is filtering once. */
  lemma {:induction false} TranslatableRulesIdempotent(rules: seq<Rule>)
    ensures TranslatableRules(TranslatableRules(rules)) == TranslatableRules(rules)
    decreases |rules|
  {
    if rules != [] {
      var head := if Translatable(rules[0]) then [rules[0]] else [];
      TranslatableRulesIdempotent(rules[1..]);
      TranslatableRulesAppend(head, TranslatableRules(rules[1..]));
      if Translatable(rules[0]) {
        assert TranslatableRules(head) == head by {
          assert head[1..] == [];
        }
      }
    }
  }

  /** `translatePolicy(target, region, network)`: a copy of the policy re-shaped for the
      target and re-validated by the constructor. */
  function Translate(p: Policy, target: string, region: Option<string>, network: Option<string>)
    : (r: Result<Policy, PolicyError>)
    ensures target !in Targets ==> r == Failure(InvalidTarget)
    ensures r.Success? ==>
      r.value.target == target &&
      (target == "aws" ==> r.value.region == region && r.value.network.None?) &&
      (target == "gcp" ==> r.value.network == network && r.value.region.None?) &&
      r.value.name == p.name && r.value.description == p.description && r.value.direction == p.direction &&
      r.value.sourceIps == p.sourceIps && r.value.sourceTags == p.sourceTags &&
      r.value.targetIps == p.targetIps && r.value.targetTags == p.targetTags &&
      r.value.rules == TranslatableRules(p.rules)
  {
    if target !in Targets then Failure(InvalidTarget)
    else
      NewPolicy(p.(target := target,
                   network := if target == "aws" then None else network,
                   region := if target == "aws" then region else None,
                   rules := TranslatableRules(p.rules)))
  }

  /** Translation of a valid policy to a valid target fails only on the placement field the
      target needs: a known region for aws, a well-formed network name for gcp. An empty rule
      list after filtering is not an error. */
  lemma TranslateSucceeds(p: Policy, target: string, region: Option<string>, network: Option<string>)
    requires target in Targets
    ensures Translate(p, target, region, network).Success? <==>
      (target == "aws" ==> region.Some? && region.value in AwsRegions) &&
      (target == "gcp" ==> network.Some? && NetworkName(network.value))
  {
    CheckPolicyMeaning(p);
    var rules := TranslatableRules(p.rules);
    TranslatableRulesMembers(p.rules);
    assert forall i :: 0 <= i < |rules| ==> rules[i] in rules;
  }

  /** Every rule of a translated policy is an allow rule over tcp, udp or icmp, so no deny,
      `all`, sctp, esp or ah rule crosses between providers. */
  lemma TranslatedRulesPortable(p: Policy, target: string, region: Option<string>, network: Option<string>)
    requires Translate(p, target, region, network).Success?
    ensures forall r :: r in Translate(p, target, region, network).value.rules ==>
      r in p.rules && r.action == "allow" && r.protocol in ["tcp", "udp", "icmp"]
  {
    TranslatableRulesMembers(p.rules);
  }

  /** Translating a translated policy again with the same arguments changes nothing. */
  lemma TranslateIdempotent(p: Policy, target: string, region: Option<string>, network: Option<string>)
    requires Translate(p, target, region, network).Success?
    ensures Translate(Translate(p, target, region, network).value, target, region, network)
         == Translate(p, target, region, network)
  {
    var q := Translate(p, target, region, network).value;
    TranslatableRulesIdempotent(p.rules);
    assert q.(target := target,
              network := if target == "aws" then None else network,
              region := if target == "aws" then region else None,
              rules := TranslatableRules(q.rules)) == q;
  }

  // ---------------------------------------------------------------- cloudTargetCount

  function CountTarget(ps: seq<Policy>, target: string): (n: nat)
    decreases |ps|
  {
    if ps == [] then 0 else (if ps[0].target == target then 1 else 0) + CountTarget(ps[1..], target)
  }

  lemma {:induction false} CountTargetPositive(ps: seq<Policy>, target: string)
    ensures CountTarget(ps, target) > 0 <==> exists i :: 0 <= i < |ps| && ps[i].target == target
    decreases |ps|
  {
    if ps != [] {
      CountTargetPositive(ps[1..], target);
      if exists i :: 0 <= i < |ps| && ps[i].target == target {
        var i :| 0 <= i < |ps| && ps[i].target == target;
        if i > 0 { assert ps[1..][i - 1].target == target; }
      }
      if exists j :: 0 <= j < |ps[1..]| && ps[1..][j].target == target {
        var j :| 0 <= j < |ps[1..]| && ps[1..][j].target == target;
        assert ps[j + 1].target == target;
      }
    }
  }

  /** `List<Policy>.cloudTargetCount()`. */
  function CloudTargetCount(ps: seq<Policy>): int
  {
    var awsCount := CountTarget(ps, "aws");
    var gcpCount := CountTarget(ps, "gcp");
    if awsCount == 0 || gcpCount == 0 then 1
    else if |ps| == 0 then 0
    else 2
  }

  /** Two clouds are reported exactly when both providers occur; otherwise, the empty list
      included, one. The `0` branch cannot be reached. */
  lemma CloudTargetCountMeaning(ps: seq<Policy>)
    ensures CloudTargetCount(ps) == 2 <==>
      (exists i :: 0 <= i < |ps| && ps[i].target == "aws") && (exists j :: 0 <= j < |ps| && ps[j].target == "gcp")
    ensures CloudTargetCount(ps) != 2 ==> CloudTargetCount(ps) == 1
  {
    CountTargetPositive(ps, "aws");
    CountTargetPositive(ps, "gcp");
  }
  // ---------------------------------------------------------------- Rendering

  /** The lines `Rule.toString` appends, each followed by a line break. */
  function RuleLines(r: RuleFields): seq<string>
  {
    ["rule {",
     "\t\t\taction = " + Quote(r.action),
     "\t\t\tprotocol = " + Quote(r.protocol),
     "\t\t\tports = " + Bracketed(r.ports),
     "\t\t}"]
  }

  lemma UnlinesSnoc(lines: seq<string>, line: string)
    ensures Unlines(lines + [line]) == Unlines(lines) + line + "\n"
  {
    UnlinesAppend(lines, [line]);
    assert Unlines([line]) == line + "\n" + Unlines([]);
  }

  /** `appendln` of each line in turn onto a string builder holding `text`. */
  method AppendLines(text: string, lines: seq<string>) returns (s: string)
    ensures s == text + Unlines(lines)
  {
    s := text;
    ghost var written: seq<string> := [];
    for k := 0 to |lines|
      invariant written == lines[..k]
      invariant s == text + Unlines(written)
    {
      UnlinesSnoc(written, lines[k]);
      s := s + lines[k] + "\n";
      written := written + [lines[k]];
    }
    assert lines[..|lines|] == lines;
  }

  /** `Rule.toString()`: a string builder that receives one line at a time. */
  method RuleToString(r: Rule) returns (s: string)
    ensures s == Unlines(RuleLines(r))
  {
    s := AppendLines("", RuleLines(r));
  }

  /** A valid port token consists of digits and hyphens only, so holds no line break. */
  lemma PortTokenOneLine(port: string)
    requires PortTokenSpec(port)
    ensures '\n' !in port
  {
    var splits := Split(port, '-');
    forall k | 0 <= k < |splits| ensures '\n' !in splits[k] {
      assert AllDigits(splits[k]);
    }
    SplitJoin(port, '-');
    JoinAvoids(splits, '-', '\n');
  }

  /** The text of a valid rule splits back into exactly its five lines: no field of a
      valid rule can break a line. */
  lemma RuleTextLines(r: Rule)
    ensures Split(Unlines(RuleLines(r)), '\n') == RuleLines(r) + [""]
    ensures |Split(Unlines(RuleLines(r)), '\n')| == 6
  {
    RuleValidMeaning(r);
    forall i | 0 <= i < |r.ports| ensures '\n' !in r.ports[i] {
      PortTokenOneLine(r.ports[i]);
    }
    BracketedAvoids(r.ports, '\n');
    var lines := RuleLines(r);
    assert '\n' !in r.action && '\n' !in r.protocol;
    forall i | 0 <= i < |lines| ensures '\n' !in lines[i] {
    }
    SplitUnlines(lines);
  }

  /** `"key=value"` as `toString` writes a tag. */
  function TagText(t: Tag): string { t.0 + "=" + t.1 }

  function TagTexts(tags: seq<Tag>): (r: seq<string>)
    ensures |r| == |tags| && forall i :: 0 <= i < |tags| ==> r[i] == TagText(tags[i])
  {
    seq(|tags|, i requires 0 <= i < |tags| => TagText(tags[i]))
  }

  /** The source-side selector lines: IPs first, then tags, each only when set. */
  function SourceLines(p: PolicyFields): seq<string>
  {
    (if p.sourceIps.Some? then ["\tsourceIps = " + Bracketed(p.sourceIps.value)] else []) +
    (if p.sourceTags.Some? then ["\tsourceTags = " + Bracketed(TagTexts(p.sourceTags.value))] else [])
  }

  function TargetLines(p: PolicyFields): seq<string>
  {
    (if p.targetIps.Some? then ["\ttargetIps = " + Bracketed(p.targetIps.value)] else []) +
    (if p.targetTags.Some? then ["\ttargetTags = " + Bracketed(TagTexts(p.targetTags.value))] else [])
  }

  /** Every line `Policy.toString` writes before the rules. */
  function PolicyHeadLines(p: PolicyFields): seq<string>
  {
    ["policy " + Quote(p.name) + " {",
     "\tdescription = " + Quote(p.description),
     "\tdirection = " + Quote(p.direction),
     "\ttarget = " + Quote(p.target)] +
    (if p.network.Some? then ["\tnetwork = " + Quote(p.network.value)] else []) +
    (if p.region.Some? then ["\tregion = " + Quote(p.region.value)] else []) +
    SourceLines(p) + TargetLines(p) +
    ["\trules {"]
  }

  /** Each rule's own text, indented by two tabs, in rule order. */
  function RulesText(rules: seq<Rule>): string
    decreases |rules|
  {
    if rules == [] then "" else "\t\t" + Unlines(RuleLines(rules[0])) + RulesText(rules[1..])
  }

  lemma {:induction false} RulesTextSnoc(rules: seq<Rule>, r: Rule)
    ensures RulesText(rules + [r]) == RulesText(rules) + "\t\t" + Unlines(RuleLines(r))
    decreases |rules|
  {
    if rules == [] {
      assert [] + [r] == [r];
      assert [r][1..] == [];
    } else {
      assert (rules + [r])[0] == rules[0];
      assert (rules + [r])[1..] == rules[1..] + [r];
      RulesTextSnoc(rules[1..], r);
    }
  }

  /** The whole text of `Policy.toString()`: the head, the rules block, two closing braces and
      an empty line. */
  function PolicyText(p: Policy): string
  {
    Unlines(PolicyHeadLines(p)) + RulesText(p.rules) + Unlines(["\t}", "}", ""])
  }

  /** `Policy.toString()`: appends the head lines one by one, then each rule's text, then the
      closing lines. */
  method PolicyToString(p: Policy) returns (s: string)
    ensures s == PolicyText(p)
  {
    s := AppendLines("", PolicyHeadLines(p));
    s := AppendRules(s, p.rules);
    s := AppendLines(s, ["\t}", "}", ""]);
  }

  /** `rules.forEach { append("\t\t$it") }` */
  method AppendRules(text: string, rules: seq<Rule>) returns (s: string)
    ensures s == text + RulesText(rules)
  {
    s := text;
    for i := 0 to |rules|
      invariant s == text + RulesText(rules[..i])
    {
      var ruleText := RuleToString(rules[i]);
      RulesTextSnoc(rules[..i], rules[i]);
      assert rules[..i + 1] == rules[..i] + [rules[i]];
      s := s + "\t\t" + ruleText;
    }
    assert rules[..|rules|] == rules;
  }

  /** The rendering shows the selector side that validation demanded: an ingress policy
      prints at least one source line and no target line, an egress policy the reverse. */
  lemma PolicyTextSelectors(p: Policy)
    ensures ToUpper(p.direction) == "INGRESS" ==> |SourceLines(p)| >= 1 && TargetLines(p) == []
    ensures ToUpper(p.direction) != "INGRESS" ==> SourceLines(p) == [] && |TargetLines(p)| >= 1
  {
    SelectorSide(p);
  }
}
