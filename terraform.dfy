/** The Terraform generators of src/main/kotlin/policymig/util/TerraformUtils.kt.

    Each generator copies a fixed template (a list of text pieces), inserts values at fixed
    positions, and appends the pieces to a file. Files are the fields of a `Workspace`; the
    random resource suffixes and the creation timestamps are parameters. */
module TerraformUtils {
  import opened Wrappers
  import opened Text
  import opened PolicyModel
  import opened DbUtils

  const GcpProviderVersion: string := "2.15.0"
  const AwsProviderVersion: string := "2.28.1"

  const GcpProviderBlock: seq<string> := [
    "provider \"google\" {\n\tversion = \"~> " + GcpProviderVersion + "\"\n\tproject = \"",
    "\"\n\tcredentials = file(\"",
    "\")\n}\n"]

  const GcpFirewallTemplate: seq<string> := [
    "\" {\n\tname = \"",
    "\"\n\tnetwork = \"",
    "\"\n\tdirection = \"",
    "\"\n\tdescription = \"",
    "\"",
    "\n\tsource_ranges = ",
    "\n\tdestination_ranges = ",
    "\n}\n\n"]

  const AllowTemplate: seq<string> := ["\n\tallow {\n\t\tprotocol = \"", "\"\n\t\tports = ", "\n\t}"]
  const DenyTemplate: seq<string> := ["\n\tdeny {\n\t\tprotocol = \"", "\"\n\t\tports = ", "\n\t}"]

  const AwsProviderBlock: seq<string> := [
    "provider \"aws\" {\n\tversion = \"~> " + AwsProviderVersion + "\"\n\tregion = \"",
    "\"\n}\n"]

  const SecurityGroupBlock: seq<string> := [
    "\" {\n\tname = \"",
    "\"\n\tdescription = \"",
    "\"\n\ttags = {\n\t\tcreatedAt = \"",
    "\"\n\t}",
    "\n}\n\n"]

  const IngressBlock: seq<string> := [
    "\n\tingress {\n\t\tfrom_port = ",
    "\n\t\tto_port = ",
    "\n\t\tprotocol = \"",
    "\"\n\t\tcidr_blocks = ",
    "\n\t}"]

  const EgressBlock: seq<string> := [
    "\n\tegress {\n\t\tfrom_port = ",
    "\n\t\tto_port = ",
    "\n\t\tprotocol = \"",
    "\"\n\t\tcidr_blocks = ",
    "\n\t}"]

  // ---------------------------------------------------------------- list surgery

  /** `MutableList.add(index, x)`. */
  function Insert(list: seq<string>, index: nat, x: string): (r: seq<string>)
    requires index <= |list|
    ensures |r| == |list| + 1 && r[index] == x
    ensures forall k :: 0 <= k < index ==> r[k] == list[k]
    ensures forall k :: index < k < |r| ==> r[k] == list[k - 1]
  {
    list[..index] + [x] + list[index..]
  }

  /** `MutableList.removeAt(index)`. */
  function RemoveAt(list: seq<string>, index: nat): (r: seq<string>)
    requires index < |list|
    ensures |r| == |list| - 1
    ensures forall k :: 0 <= k < index ==> r[k] == list[k]
    ensures forall k :: index <= k < |r| ==> r[k] == list[k + 1]
  {
    list[..index] + list[index + 1..]
  }

  /** `pieces.forEach { appendText(it) }` on a file holding `text`. */
  method AppendAll(text: string, pieces: seq<string>) returns (s: string)
    ensures s == text + Concat(pieces)
  {
    s := text;
    for k := 0 to |pieces|
      invariant s == text + Concat(pieces[..k])
    {
      ConcatAppend(pieces[..k], [pieces[k]]);
      assert Concat([pieces[k]]) == pieces[k] + Concat([]);
      assert pieces[..k + 1] == pieces[..k] + [pieces[k]];
      s := s + pieces[k];
    }
    assert pieces[..|pieces|] == pieces;
  }

  lemma AppendAssoc(a: string, b: string, c: string)
    ensures a + b + c == a + (b + c)
  {
  }

  lemma ConcatThree(a: string, b: string, c: string)
    ensures Concat([a, b, c]) == a + b + c
  {
    assert [a, b, c] == [a] + [b, c];
    assert [b, c] == [b] + [c];
    assert Concat([c]) == c + Concat([]);
    assert Concat([b, c]) == b + Concat([c]);
  }

  lemma ConcatFive(a: string, b: string, c: string, d: string, e: string)
    ensures Concat([a, b, c, d, e]) == a + b + c + d + e
  {
    assert [a, b, c, d, e] == [a] + [b, c, d, e];
    assert [b, c, d, e] == [b] + [c, d, e];
    assert [c, d, e] == [c] + [d, e];
    assert [d, e] == [d] + [e];
    assert Concat([e]) == e + Concat([]);
    assert Concat([d, e]) == d + Concat([e]);
    assert Concat([c, d, e]) == c + Concat([d, e]);
    assert Concat([b, c, d, e]) == b + Concat([c, d, e]);
  }

  // ---------------------------------------------------------------- resource suffix

  predicate SuffixChar(c: char) { 'a' <= c <= 'z' || '0' <= c <= '9' }

  /** The shape of a resource suffix: eight pairwise different characters from a-z and 0-9. */
  predicate ResourceSuffix(s: string)
  {
    |s| == 8 && (forall i :: 0 <= i < 8 ==> SuffixChar(s[i])) &&
    (forall i, j :: 0 <= i < j < 8 ==> s[i] != s[j])
  }

  /** `('a'..'z') + ('0'..'9')` */
  const SuffixChars: seq<char> :=
    seq(26, i requires 0 <= i < 26 => ('a' as int + i) as char) +
    seq(10, i requires 0 <= i < 10 => ('0' as int + i) as char)

  /** `randomHexString()`: the first eight characters of a shuffle of the 36 suffix
      characters. The shuffle is the parameter: any permutation of the alphabet. The result
      has eight pairwise different characters drawn from a-z and 0-9. */
  function RandomHexString(shuffled: seq<char>): (s: string)
    requires multiset(shuffled) == multiset(SuffixChars)
    ensures |s| == 8
    ensures forall i :: 0 <= i < 8 ==> SuffixChar(s[i])
    ensures forall i, j :: 0 <= i < j < 8 ==> s[i] != s[j]
    ensures ResourceSuffix(s)
  {
    assert |shuffled| == |multiset(shuffled)| == |multiset(SuffixChars)| == 36;
    ShuffleProperties(shuffled);
    shuffled[..8]
  }

  lemma SuffixCharsDistinct()
    ensures |SuffixChars| == 36
    ensures forall i, j :: 0 <= i < j < 36 ==> SuffixChars[i] != SuffixChars[j]
    ensures forall i :: 0 <= i < 36 ==> SuffixChar(SuffixChars[i])
  {
    forall i | 0 <= i < 36 ensures SuffixChar(SuffixChars[i]) &&
      (i < 26 ==> SuffixChars[i] as int == 'a' as int + i) &&
      (26 <= i ==> SuffixChars[i] as int == '0' as int + i - 26)
    {
      if i < 26 {
        assert SuffixChars[i] == ('a' as int + i) as char;
      } else {
        assert SuffixChars[i] == ('0' as int + (i - 26)) as char;
      }
    }
  }

  /** In a sequence without repetitions every element occurs once. */
  lemma {:induction false} DistinctCount(s: seq<char>, c: char)
    requires forall i, j :: 0 <= i < j < |s| ==> s[i] != s[j]
    ensures multiset(s)[c] <= 1
    decreases |s|
  {
    if s != [] {
      assert s == [s[0]] + s[1..];
      DistinctCount(s[1..], c);
      if c == s[0] {
        assert c !in s[1..] by {
          forall k | 0 <= k < |s[1..]| ensures s[1..][k] != c {
            assert s[1..][k] == s[k + 1];
          }
        }
      }
    }
  }

  /** An element at two positions occurs at least twice. */
  lemma RepeatCount(s: seq<char>, i: nat, j: nat)
    requires i < j < |s| && s[i] == s[j]
    ensures multiset(s)[s[i]] >= 2
  {
    assert s == s[..j] + [s[j]] + s[j + 1..];
    assert s[..j][i] == s[i];
    assert s[i] in multiset(s[..j]);
  }

  lemma ShuffleProperties(shuffled: seq<char>)
    requires multiset(shuffled) == multiset(SuffixChars)
    ensures forall i :: 0 <= i < |shuffled| ==> SuffixChar(shuffled[i])
    ensures forall i, j :: 0 <= i < j < |shuffled| ==> shuffled[i] != shuffled[j]
  {
    SuffixCharsDistinct();
    forall i | 0 <= i < |shuffled| ensures SuffixChar(shuffled[i]) {
      assert shuffled[i] in multiset(shuffled);
      assert shuffled[i] in SuffixChars;
    }
    forall i, j | 0 <= i < j < |shuffled| ensures shuffled[i] != shuffled[j] {
      if shuffled[i] == shuffled[j] {
        RepeatCount(shuffled, i, j);
        DistinctCount(SuffixChars, shuffled[i]);
        assert false;
      }
    }
  }

  // ---------------------------------------------------------------- resolved selectors

  /** A selector side as the generators use it: tags, when set, are resolved through the
      instance inventory and win over IPs; otherwise the IP list, when set. */
  function ResolveSide(ips: Option<seq<string>>, tags: Option<seq<Tag>>, target: string, store: InstanceStore)
    : (r: Option<seq<string>>)
    ensures r.Some? <==> ips.Some? || tags.Some?
    ensures tags.None? ==> r == ips
  {
    if tags.Some? then Some(FetchTagsAsIp(store, target, tags.value)) else ips
  }

  function SourceRanges(p: PolicyFields, store: InstanceStore): Option<seq<string>>
  {
    ResolveSide(p.sourceIps, p.sourceTags, p.target, store)
  }

  function TargetRanges(p: PolicyFields, store: InstanceStore): Option<seq<string>>
  {
    ResolveSide(p.targetIps, p.targetTags, p.target, store)
  }

  // ---------------------------------------------------------------- GCP

  function GcpProviderText(project: string, credentialsFile: string): string
  {
    GcpProviderBlock[0] + project + GcpProviderBlock[1] + credentialsFile + GcpProviderBlock[2]
  }

  function GcpHeader(suffix: string): string
  {
    "resource \"google_compute_firewall\" \"firewall-" + suffix
  }

  /** The nested `allow` or `deny` block of one rule. */
  function GcpRuleText(action: string, protocol: string, ports: seq<string>): string
  {
    var t := if action == "allow" then AllowTemplate else DenyTemplate;
    Concat([t[0], protocol, t[1], Bracketed(ports), t[2]])
  }

  /** The pieces of one firewall: the header, the name/network/direction/description
      fields, the key and list of the populated selector side, the nested rule block and
      the closing brace. When both sides are populated the surgery interleaves them. */
  function GcpLayout(header: string, name: string, network: string, direction: string, description: string,
                     source: Option<seq<string>>, target: Option<seq<string>>, nested: string): seq<string>
  {
    var t := GcpFirewallTemplate;
    var side :=
      if source.Some? && target.Some? then [t[5], Bracketed(target.value), Bracketed(source.value), t[6]]
      else if source.Some? then [t[5], Bracketed(source.value)]
      else if target.Some? then [t[6], Bracketed(target.value)]
      else [];
    [header, t[0], name, t[1], network, t[2], direction, t[3], description, t[4]] + side + [nested, t[7]]
  }

  /** The nested block: the protocol and the bracketed ports inserted into the template. */
  method BuildGcpRuleBlock(action: string, protocol: string, ports: seq<string>) returns (text: string)
    ensures text == GcpRuleText(action, protocol, ports)
  {
    var t := if action == "allow" then AllowTemplate else DenyTemplate;
    var template := t;
    template := Insert(template, 1, protocol);
    template := Insert(template, 3, Bracketed(ports));
    assert template == [t[0], protocol, t[1], Bracketed(ports), t[2]];
    text := Concat(template);
  }

  /** The template surgery of `createGcpFirewallBlock` for one rule, given each selector side
      already resolved (`None` when neither its tags nor its IPs are set). With neither side
      set the second removal is out of bounds, so one side is required. */
  method BuildGcpFirewallBlock(header: string, name: string, network: string, direction: string,
                               description: string, source: Option<seq<string>>,
                               target: Option<seq<string>>, nested: string)
    returns (block: seq<string>)
    requires source.Some? || target.Some?
    ensures block == GcpLayout(header, name, network, direction, description, source, target, nested)
  {
    var t := GcpFirewallTemplate;
    block := t;
    block := Insert(block, 0, header);
    block := Insert(block, 2, name);
    block := Insert(block, 4, network);
    block := Insert(block, 6, direction);
    block := Insert(block, 8, description);
    ghost var fields := [header, t[0], name, t[1], network, t[2], direction, t[3], description, t[4]];
    assert block == fields + [t[5], t[6], t[7]];
    if source.None? {
      block := RemoveAt(block, 10);
      assert block == fields + [t[6], t[7]];
    } else {
      block := Insert(block, 11, Bracketed(source.value));
      assert block == fields + [t[5], Bracketed(source.value), t[6], t[7]];
    }
    if target.None? {
      block := RemoveAt(block, 12);
      assert block == fields + [t[5], Bracketed(source.value), t[7]];
    } else {
      block := Insert(block, 11, Bracketed(target.value));
    }
    block := Insert(block, |block| - 1, nested);
  }

  /** What the generators read of a policy: its fields with both selector sides resolved. */
  datatype Resolved = Resolved(name: string, description: string, direction: string,
                               source: Option<seq<string>>, target: Option<seq<string>>, rules: seq<RuleFields>)

  function ResolvePolicy(p: PolicyFields, store: InstanceStore): Resolved
  {
    Resolved(p.name, p.description, p.direction, SourceRanges(p, store), TargetRanges(p, store), p.rules)
  }

  /** The pieces written for rule `i`. */
  function GcpFirewallPieces(r: Resolved, network: string, i: nat, suffix: string): seq<string>
    requires i < |r.rules|
  {
    var rule := r.rules[i];
    GcpLayout(GcpHeader(suffix), r.name + NatToString(i), network, r.direction, r.description,
              r.source, r.target, GcpRuleText(rule.action, rule.protocol, rule.ports))
  }

  /** The text the first `n` rules append to `gcp/firewalls.tf`. */
  function GcpFirewallsText(r: Resolved, network: string, suffixes: seq<string>, n: nat): string
    requires n <= |r.rules| && n <= |suffixes|
  {
    if n == 0 then ""
    else GcpFirewallsText(r, network, suffixes, n - 1) + Concat(GcpFirewallPieces(r, network, n - 1, suffixes[n - 1]))
  }

  lemma GcpFirewallsTextStep(r: Resolved, network: string, suffixes: seq<string>, n: nat)
    requires n < |r.rules| && n < |suffixes|
    ensures GcpFirewallsText(r, network, suffixes, n + 1)
         == GcpFirewallsText(r, network, suffixes, n) + Concat(GcpFirewallPieces(r, network, n, suffixes[n]))
  {
  }

  /** What a generated firewall looks like when exactly one selector side is set: fourteen
      pieces, the key at position ten names that side and is followed by its list, then the
      nested block and the closing brace. */
  lemma GcpLayoutShape(header: string, name: string, network: string, direction: string, description: string,
                       source: Option<seq<string>>, target: Option<seq<string>>, nested: string)
    requires source.Some? != target.Some?
    ensures var b := GcpLayout(header, name, network, direction, description, source, target, nested);
      |b| == 14 && b[0] == header && b[2] == name && b[4] == network && b[6] == direction &&
      b[8] == description &&
      (b[10] == "\n\tsource_ranges = " <==> source.Some?) &&
      (b[10] == "\n\tdestination_ranges = " <==> target.Some?) &&
      b[11] == Bracketed(if source.Some? then source.value else target.value) &&
      b[12] == nested && b[13] == "\n}\n\n"
  {
  }

  /** For a valid GCP policy the key is `source_ranges` exactly for an INGRESS policy (in any
      letter case) and lists the resolved addresses of the side the direction demands; the
      nested block allows or denies as the rule says, and never for protocol `all`. */
  lemma GcpFirewallShape(p: Policy, i: nat, suffix: string, store: InstanceStore)
    requires p.target == "gcp" && i < |p.rules|
    ensures p.network.Some? && p.rules[i].protocol != "all"
    ensures var b := GcpFirewallPieces(ResolvePolicy(p, store), p.network.value, i, suffix);
      |b| == 14 && b[0] == GcpHeader(suffix) && b[2] == p.name + NatToString(i) &&
      (b[10] == "\n\tsource_ranges = " <==> ToUpper(p.direction) == "INGRESS") &&
      b[11] == Bracketed(if ToUpper(p.direction) == "INGRESS" then SourceRanges(p, store).value
                         else TargetRanges(p, store).value) &&
      b[12] == GcpRuleText(p.rules[i].action, p.rules[i].protocol, p.rules[i].ports)
  {
    SelectorSide(p);
    CheckPolicyMeaning(p);
    var rule := p.rules[i];
    GcpLayoutShape(GcpHeader(suffix), p.name + NatToString(i), p.network.value, p.direction, p.description,
                   SourceRanges(p, store), TargetRanges(p, store), GcpRuleText(rule.action, rule.protocol, rule.ports));
  }

  /** The nested block opens with `allow` exactly for an allow rule. */
  lemma GcpRuleTextAction(action: string, protocol: string, ports: seq<string>)
    ensures var text := GcpRuleText(action, protocol, ports);
      |text| >= 8 && (text[..8] == "\n\tallow " <==> action == "allow")
  {
    var t := if action == "allow" then AllowTemplate else DenyTemplate;
    var text := GcpRuleText(action, protocol, ports);
    assert [t[0], protocol, t[1], Bracketed(ports), t[2]] == [t[0]] + [protocol, t[1], Bracketed(ports), t[2]];
    ConcatAppend([t[0]], [protocol, t[1], Bracketed(ports), t[2]]);
    assert Concat([t[0]]) == t[0] + Concat([]);
    assert text == t[0] + Concat([protocol, t[1], Bracketed(ports), t[2]]);
    assert text[..8] == t[0][..8];
    if action != "allow" {
      assert text[2] == 'd';
    }
  }

  // ---------------------------------------------------------------- AWS

  function AwsProviderText(region: string): string
  {
    AwsProviderBlock[0] + region + AwsProviderBlock[1]
  }

  function AwsHeader(suffix: string): string
  {
    "resource \"aws_security_group\" \"firewall-" + suffix
  }

  /** `from_port` and `to_port` of a port token: the two halves of a single range, otherwise
      the token itself twice. */
  function PortBounds(port: string): (string, string)
  {
    var halves := Split(port, '-');
    if |halves| == 2 then (halves[0], halves[1]) else (port, port)
  }

  /** AWS writes the protocol `all` as `-1`. */
  function AwsProtocol(protocol: string): string
  {
    if protocol == "all" then "-1" else protocol
  }

  /** The pieces of a port block before its address list. */
  function PortHead(ingress: bool, port: string, protocol: string): seq<string>
  {
    var t := if ingress then IngressBlock else EgressBlock;
    [t[0], PortBounds(port).0, t[1], PortBounds(port).1, t[2], AwsProtocol(protocol), t[3]]
  }

  /** The address lists of a port block: each populated side's, the target side's first. */
  function CidrLists(source: Option<seq<string>>, target: Option<seq<string>>): seq<string>
  {
    if source.Some? && target.Some? then [Bracketed(target.value), Bracketed(source.value)]
    else if source.Some? then [Bracketed(source.value)]
    else if target.Some? then [Bracketed(target.value)]
    else []
  }

  /** The `ingress` or `egress` block of one port. */
  function AwsPortText(ingress: bool, port: string, protocol: string,
                       source: Option<seq<string>>, target: Option<seq<string>>): string
  {
    Concat(PortHead(ingress, port, protocol) + CidrLists(source, target) + ["\n\t}"])
  }

  function AwsPortTexts(ingress: bool, ports: seq<string>, protocol: string,
                        source: Option<seq<string>>, target: Option<seq<string>>): (r: seq<string>)
    ensures |r| == |ports|
    ensures forall k :: 0 <= k < |ports| ==> r[k] == AwsPortText(ingress, ports[k], protocol, source, target)
  {
    seq(|ports|, k requires 0 <= k < |ports| => AwsPortText(ingress, ports[k], protocol, source, target))
  }

  /** The pieces of one security group: the header, name and description, the `createdAt`
      tag, one block per port, and the closing brace. */
  function AwsGroupLayout(header: string, name: string, description: string, createdAt: string,
                          portBlocks: seq<string>): seq<string>
  {
    var s := SecurityGroupBlock;
    [header, s[0], name, s[1], description, s[2], createdAt, s[3]] + portBlocks + [s[4]]
  }

  /** The per-port template surgery of `createAwsSecurityGroupBlock`. */
  method BuildAwsPortBlock(ingress: bool, port: string, protocol: string,
                           source: Option<seq<string>>, target: Option<seq<string>>) returns (text: string)
    ensures text == AwsPortText(ingress, port, protocol, source, target)
  {
    var template := FillPortHead(ingress, port, protocol);
    template := AddCidrs(template, source, target);
    text := Concat(template);
  }

  /** The port bounds and the protocol inserted into the ingress or egress template. */
  method FillPortHead(ingress: bool, port: string, protocol: string) returns (template: seq<string>)
    ensures template == PortHead(ingress, port, protocol) + ["\n\t}"]
  {
    var t := if ingress then IngressBlock else EgressBlock;
    template := t;
    var halves := Split(port, '-');
    var from, to := PortBounds(port).0, PortBounds(port).1;
    if |halves| == 2 {
      template := Insert(template, 1, halves[0]);
      template := Insert(template, 3, halves[1]);
    } else {
      template := Insert(template, 1, port);
      template := Insert(template, 3, port);
    }
    assert template == [t[0], from, t[1], to, t[2], t[3], t[4]];
    if protocol == "all" {
      template := Insert(template, 5, "-1");
    } else {
      template := Insert(template, 5, protocol);
    }
    assert template == [t[0], from, t[1], to, t[2], AwsProtocol(protocol), t[3], t[4]];
  }

  /** The selector lists inserted before the closing piece: the source side's first, then
      the target side's in front of it. */
  method AddCidrs(template: seq<string>, source: Option<seq<string>>, target: Option<seq<string>>)
    returns (r: seq<string>)
    requires |template| == 8
    ensures r == template[..7] + CidrLists(source, target) + [template[7]]
  {
    r := template;
    if source.Some? {
      r := Insert(r, 7, Bracketed(source.value));
    }
    if target.Some? {
      r := Insert(r, 7, Bracketed(target.value));
    }
  }

  /** The template surgery of `createAwsSecurityGroupBlock` for one rule: a port block goes
      before the closing brace for each port, in order, and the timestamp goes in last. */
  method BuildAwsSecurityGroup(header: string, name: string, description: string, createdAt: string,
                               ingress: bool, ports: seq<string>, protocol: string,
                               source: Option<seq<string>>, target: Option<seq<string>>)
    returns (block: seq<string>)
    ensures block == AwsGroupLayout(header, name, description, createdAt,
                                    AwsPortTexts(ingress, ports, protocol, source, target))
  {
    var s := SecurityGroupBlock;
    block := s;
    block := Insert(block, 0, header);
    block := Insert(block, 2, name);
    block := Insert(block, 4, description);
    ghost var fields := [header, s[0], name, s[1], description, s[2]];
    assert block == fields + [s[3]] + [] + [s[4]];
    for k := 0 to |ports|
      invariant block == fields + [s[3]] + AwsPortTexts(ingress, ports[..k], protocol, source, target) + [s[4]]
    {
      var text := BuildAwsPortBlock(ingress, ports[k], protocol, source, target);
      assert AwsPortTexts(ingress, ports[..k + 1], protocol, source, target)
          == AwsPortTexts(ingress, ports[..k], protocol, source, target) + [text];
      block := Insert(block, |block| - 1, text);
    }
    assert ports[..|ports|] == ports;
    block := Insert(block, 6, createdAt);
  }

  /** The pieces written for rule `i`; the port blocks are ingress blocks when the
      direction, upper-cased, is INGRESS. */
  function AwsGroupPieces(r: Resolved, i: nat, suffix: string, createdAt: string): seq<string>
    requires i < |r.rules|
  {
    var rule := r.rules[i];
    AwsGroupLayout(AwsHeader(suffix), r.name + NatToString(i), r.description, createdAt,
                   AwsPortTexts(ToUpper(r.direction) == "INGRESS", rule.ports, rule.protocol, r.source, r.target))
  }

  /** The text the first `n` rules append to `aws/<region>/firewalls.tf`. */
  function AwsGroupsText(r: Resolved, suffixes: seq<string>, timestamps: seq<string>, n: nat): string
    requires n <= |r.rules| && n <= |suffixes| && n <= |timestamps|
  {
    if n == 0 then ""
    else AwsGroupsText(r, suffixes, timestamps, n - 1) +
         Concat(AwsGroupPieces(r, n - 1, suffixes[n - 1], timestamps[n - 1]))
  }

  lemma AwsGroupsTextStep(r: Resolved, suffixes: seq<string>, timestamps: seq<string>, n: nat)
    requires n < |r.rules| && n < |suffixes| && n < |timestamps|
    ensures AwsGroupsText(r, suffixes, timestamps, n + 1)
         == AwsGroupsText(r, suffixes, timestamps, n) + Concat(AwsGroupPieces(r, n, suffixes[n], timestamps[n]))
  {
  }

  /** A port range `a-b` of a valid rule becomes `from_port = a` and `to_port = b` with
      a <= b; a single port becomes both bounds. A token with more than one hyphen is
      accepted by validation and written whole into both bounds. */
  lemma PortBoundsMeaning(port: string)
    requires PortTokenSpec(port)
    ensures var (from, to) := PortBounds(port);
      (|Split(port, '-')| == 2 ==> port == from + "-" + to && DecValue(from) <= DecValue(to)) &&
      (|Split(port, '-')| != 2 ==> from == port && to == port)
  {
    var halves := Split(port, '-');
    if |halves| == 2 {
      SplitJoin(port, '-');
      JoinTwo(halves[0], halves[1], '-');
    }
  }

  /** `-1` stands for `all` and for no other protocol a valid rule can carry. */
  lemma AwsProtocolMeaning(rule: Rule)
    ensures AwsProtocol(rule.protocol) == "-1" <==> rule.protocol == "all"
  {
    RuleValidMeaning(rule);
  }

  /** What a generated security group looks like: nine pieces plus one per port, the
      timestamp at position six, the port blocks in port order, and the closing brace last. */
  lemma AwsGroupLayoutShape(header: string, name: string, description: string, createdAt: string,
                            portBlocks: seq<string>)
    ensures var b := AwsGroupLayout(header, name, description, createdAt, portBlocks);
      |b| == 9 + |portBlocks| && b[0] == header && b[2] == name && b[4] == description &&
      b[6] == createdAt && b[8..8 + |portBlocks|] == portBlocks && b[|b| - 1] == "\n}\n\n"
  {
    var b := AwsGroupLayout(header, name, description, createdAt, portBlocks);
    assert b[8..8 + |portBlocks|] == portBlocks;
  }

  /** For a valid AWS policy every port block lists the resolved addresses of exactly the
      side the direction demands, and every rule allows. */
  lemma AwsPortTextOneSide(p: Policy, i: nat, port: string, store: InstanceStore)
    requires p.target == "aws" && i < |p.rules|
    ensures p.rules[i].action == "allow"
    ensures AwsPortText(ToUpper(p.direction) == "INGRESS", port, p.rules[i].protocol,
                        SourceRanges(p, store), TargetRanges(p, store))
         == AwsPortText(ToUpper(p.direction) == "INGRESS", port, p.rules[i].protocol,
                        if ToUpper(p.direction) == "INGRESS" then SourceRanges(p, store) else None,
                        if ToUpper(p.direction) == "INGRESS" then None else TargetRanges(p, store))
  {
    SelectorSide(p);
    CheckPolicyMeaning(p);
  }

  // ---------------------------------------------------------------- the files

  /** The `terraform-resources` directory: `gcp/provider.tf`, `gcp/firewalls.tf`, and per
      AWS region `aws/<region>/provider.tf` and `aws/<region>/firewalls.tf`. A file that
      does not exist reads as empty. */
  class Workspace {
    var gcpProvider: string
    var gcpFirewalls: string
    var awsProviders: map<string, string>
    var awsFirewalls: map<string, string>

    constructor ()
      ensures gcpProvider == "" && gcpFirewalls == "" && awsProviders == map[] && awsFirewalls == map[]
    {
      gcpProvider, gcpFirewalls := "", "";
      awsProviders, awsFirewalls := map[], map[];
    }

    function AwsFirewalls(region: string): string
      reads this
    {
      if region in awsFirewalls then awsFirewalls[region] else ""
    }

    /** `createGcpProviderBlock`: the provider file is emptied and holds exactly one block. */
    method CreateGcpProviderBlock(project: string, credentialsFile: string)
      modifies this
      ensures gcpProvider == GcpProviderText(project, credentialsFile)
      ensures gcpFirewalls == old(gcpFirewalls)
      ensures awsProviders == old(awsProviders) && awsFirewalls == old(awsFirewalls)
    {
      var block := Insert(GcpProviderBlock, 1, project);
      block := Insert(block, 3, credentialsFile);
      assert block == [GcpProviderBlock[0], project, GcpProviderBlock[1], credentialsFile, GcpProviderBlock[2]];
      gcpProvider := "";
      gcpProvider := AppendAll(gcpProvider, block);
      ConcatFive(GcpProviderBlock[0], project, GcpProviderBlock[1], credentialsFile, GcpProviderBlock[2]);
    }

    /** `createGcpFirewallBlock`: refuses a non-GCP policy without touching any file;
        otherwise appends one firewall per rule, in rule order, after what the file held.
        `suffixes[i]` is the `randomHexString()` drawn for rule `i`. */
    method CreateGcpFirewallBlock(p: Policy, store: InstanceStore, suffixes: seq<string>) returns (ok: bool)
      requires |suffixes| == |p.rules|
      requires forall k :: 0 <= k < |suffixes| ==> ResourceSuffix(suffixes[k])
      modifies this
      ensures ok <==> p.target == "gcp"
      ensures ok ==> (p.network.Some? &&
        gcpFirewalls == old(gcpFirewalls) + GcpFirewallsText(ResolvePolicy(p, store), p.network.value, suffixes, |p.rules|))
      ensures !ok ==> gcpFirewalls == old(gcpFirewalls)
      ensures gcpProvider == old(gcpProvider)
      ensures awsProviders == old(awsProviders) && awsFirewalls == old(awsFirewalls)
    {
      ok := p.target == "gcp";
      if !ok {
        return;
      }
      SelectorSide(p);
      AppendGcpFirewalls(ResolvePolicy(p, store), p.network.value, suffixes);
    }

    /** `policy.rules.forEachIndexed`: the firewall of each rule is built and appended. */
    method AppendGcpFirewalls(r: Resolved, network: string, suffixes: seq<string>)
      requires r.source.Some? || r.target.Some?
      requires |suffixes| == |r.rules|
      modifies this
      ensures gcpFirewalls == old(gcpFirewalls) + GcpFirewallsText(r, network, suffixes, |r.rules|)
      ensures gcpProvider == old(gcpProvider)
      ensures awsProviders == old(awsProviders) && awsFirewalls == old(awsFirewalls)
    {
      var start := gcpFirewalls;
      for i := 0 to |r.rules|
        invariant gcpFirewalls == start + GcpFirewallsText(r, network, suffixes, i)
        invariant gcpProvider == old(gcpProvider)
        invariant awsProviders == old(awsProviders) && awsFirewalls == old(awsFirewalls)
      {
        var block := GcpFirewallFor(r, network, i, suffixes[i]);
        GcpFirewallsTextStep(r, network, suffixes, i);
        gcpFirewalls := AppendAll(gcpFirewalls, block);
        AppendAssoc(start, GcpFirewallsText(r, network, suffixes, i), Concat(block));
      }
    }

    /** The firewall of rule `i`: its nested block, then the surgery on the template. */
    static method GcpFirewallFor(r: Resolved, network: string, i: nat, suffix: string) returns (block: seq<string>)
      requires r.source.Some? || r.target.Some?
      requires i < |r.rules|
      ensures block == GcpFirewallPieces(r, network, i, suffix)
    {
      var rule := r.rules[i];
      var nested := BuildGcpRuleBlock(rule.action, rule.protocol, rule.ports);
      block := BuildGcpFirewallBlock(GcpHeader(suffix), r.name + NatToString(i), network,
        r.direction, r.description, r.source, r.target, nested);
    }

    /** `createAwsSecurityGroupBlock`: refuses a non-AWS policy without touching any file;
        otherwise rewrites the region's provider file and appends one security group per rule,
        in rule order, to the region's firewall file. Other regions and GCP are untouched.
        `suffixes[i]` and `timestamps[i]` are the suffix and `LocalDateTime.now()` of rule `i`. */
    method CreateAwsSecurityGroupBlock(p: Policy, store: InstanceStore, suffixes: seq<string>, timestamps: seq<string>)
      returns (ok: bool)
      requires |suffixes| == |p.rules| && |timestamps| == |p.rules|
      requires forall k :: 0 <= k < |suffixes| ==> ResourceSuffix(suffixes[k])
      modifies this
      ensures ok <==> p.target == "aws"
      ensures ok ==> (p.region.Some? &&
        awsProviders == old(awsProviders)[p.region.value := AwsProviderText(p.region.value)])
      ensures ok && |p.rules| > 0 ==> (p.region.Some? &&
        awsFirewalls == old(awsFirewalls)[p.region.value :=
          old(AwsFirewalls(p.region.value)) + AwsGroupsText(ResolvePolicy(p, store), suffixes, timestamps, |p.rules|)])
      ensures !ok || |p.rules| == 0 ==> awsFirewalls == old(awsFirewalls)
      ensures !ok ==> awsProviders == old(awsProviders)
      ensures gcpProvider == old(gcpProvider) && gcpFirewalls == old(gcpFirewalls)
    {
      ok := p.target == "aws";
      if !ok {
        return;
      }
      SelectorSide(p);
      WriteAwsProvider(p.region.value);
      AppendAwsGroups(p.region.value, ResolvePolicy(p, store), suffixes, timestamps);
    }

    /** The region's `provider.tf` is emptied and holds exactly one block. */
    method WriteAwsProvider(region: string)
      modifies this
      ensures awsProviders == old(awsProviders)[region := AwsProviderText(region)]
      ensures awsFirewalls == old(awsFirewalls)
      ensures gcpProvider == old(gcpProvider) && gcpFirewalls == old(gcpFirewalls)
    {
      var providerBlock := Insert(AwsProviderBlock, 1, region);
      assert providerBlock == [AwsProviderBlock[0], region, AwsProviderBlock[1]];
      var provider := AppendAll("", providerBlock);
      ConcatThree(AwsProviderBlock[0], region, AwsProviderBlock[1]);
      assert provider == AwsProviderText(region);
      awsProviders := awsProviders[region := provider];
    }

    /** `policy.rules.forEachIndexed`: the security group of each rule is built and appended
        to the region's firewall file, which exists once the first group is written. */
    method AppendAwsGroups(region: string, r: Resolved, suffixes: seq<string>, timestamps: seq<string>)
      requires |suffixes| == |r.rules| && |timestamps| == |r.rules|
      modifies this
      ensures |r.rules| > 0 ==>
        awsFirewalls == old(awsFirewalls)[region := old(AwsFirewalls(region)) + AwsGroupsText(r, suffixes, timestamps, |r.rules|)]
      ensures |r.rules| == 0 ==> awsFirewalls == old(awsFirewalls)
      ensures awsProviders == old(awsProviders)
      ensures gcpProvider == old(gcpProvider) && gcpFirewalls == old(gcpFirewalls)
    {
      var start := AwsFirewalls(region);
      for i := 0 to |r.rules|
        invariant i == 0 ==> awsFirewalls == old(awsFirewalls)
        invariant i > 0 ==> awsFirewalls == old(awsFirewalls)[region := start + AwsGroupsText(r, suffixes, timestamps, i)]
        invariant awsProviders == old(awsProviders)
        invariant gcpProvider == old(gcpProvider) && gcpFirewalls == old(gcpFirewalls)
      {
        var block := AwsGroupFor(r, i, suffixes[i], timestamps[i]);
        AwsGroupsTextStep(r, suffixes, timestamps, i);
        ghost var text := AwsGroupsText(r, suffixes, timestamps, i);
        assert AwsFirewalls(region) == start + text;
        ghost var before := awsFirewalls;
        AppendToRegion(region, block);
        assert awsFirewalls == before[region := start + text + Concat(block)];
        AppendAssoc(start, text, Concat(block));
      }
    }

    /** The security group of rule `i`. */
    static method AwsGroupFor(r: Resolved, i: nat, suffix: string, createdAt: string) returns (block: seq<string>)
      requires i < |r.rules|
      ensures block == AwsGroupPieces(r, i, suffix, createdAt)
    {
      var rule := r.rules[i];
      block := BuildAwsSecurityGroup(AwsHeader(suffix), r.name + NatToString(i), r.description,
        createdAt, ToUpper(r.direction) == "INGRESS", rule.ports, rule.protocol, r.source, r.target);
    }

    /** `appendText` of every piece to the region's firewall file, created on first use. */
    method AppendToRegion(region: string, block: seq<string>)
      modifies this
      ensures awsFirewalls == old(awsFirewalls)[region := old(AwsFirewalls(region)) + Concat(block)]
      ensures awsProviders == old(awsProviders)
      ensures gcpProvider == old(gcpProvider) && gcpFirewalls == old(gcpFirewalls)
    {
      var file := AppendAll(AwsFirewalls(region), block);
      awsFirewalls := awsFirewalls[region := file];
    }
  }
}
