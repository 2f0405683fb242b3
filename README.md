# PolicyMig core in Dafny

PolicyMig takes network security policies written in a small Kotlin DSL and turns them into Terraform
resources. A policy carries a target cloud ("gcp" or "aws"), a direction, a network or region, source
or target selectors (IP lists or `key=value` tags) and a list of firewall rules. The tool produces
`google_compute_firewall` blocks for GCP and `aws_security_group` blocks for AWS. This project models
the core of that pipeline and proves properties of the model:

- **Validation** (`model.dfy`, module `PolicyModel`). `Rule` and `Policy` are subset types of the
  `RuleFields` / `PolicyFields` records. A value of either type has passed the constructor's
  `validate()`. `NewRule` / `NewPolicy` return a `Result` that names the first check that fails, in the
  order of the code.
- **Translation.** `Translate` models `translatePolicy`, re-validating its copy.
  - `CloudTargetCount` models `cloudTargetCount`.
  - `RuleToString` and `PolicyToString` are the two `toString` serialisers. They are written as
    line-appending methods and proved against the functions `RuleLines` / `PolicyText`.
- **Grammars and vocabularies** (`policy_utils.dfy`, module `PolicyUtils`).
  - The four regular expressions are character-level predicates, with lemmas tying them to numeric
    bounds and to their split structure.
  - The fixed target, direction, action, protocol and region lists are constants.
  - Module `PolicyFixtures` models the `getSamplePolicy` fixture.
- **Terraform generation** (`terraform.dfy`, module `TerraformUtils`).
  - The template constants are sequences of strings.
  - The `add(index, …)` / `removeAt(index)` surgery on cloned templates is a set of methods proved to
    produce an explicitly stated block layout.
  - The output files are the fields of a `Workspace` class. `provider.tf` is overwritten and
    `firewalls.tf` is only appended to.
- **Tag resolution** (`db_utils.dfy`, module `DbUtils`). `FetchTagsAsIp` models `fetchTagsAsIp` over an
  explicit `InstanceStore` value that takes the place of the database.
- **Builders** (`db_models.dfy` and `dsl.dfy`).
  - `InstanceBuilder` is a class with mutable fields and a `Build` function.
  - `List<Instance>.contains` is a loop with early exit.
  - The DSL builders `RuleBuilder`, `RULES` (here `RulesList`) and `PolicyBuilder` are classes whose
    `Build` feeds the validating constructors.
- **Shared helpers.** `text.dfy` (module `Text`) models the string operations the code relies on:
  - `split` on one character;
  - `joinToString`;
  - ASCII `toUpperCase`;
  - decimal values of digit strings;
  - the text produced by successive `appendln` calls.
- `wrappers.dfy` holds `Option`, `Result` and `Outcome`.

Randomness, the clock and the database are parameters:
- the random resource suffix of each rule is a parameter, and `RandomHexString` is stated over an
  arbitrary permutation of its alphabet;
- `LocalDateTime.now()` is one timestamp string per rule;
- the instance tables are an `InstanceStore`.

Some behaviours of the code that the model keeps as they are:
- **Tag resolution.** The resolver concatenates the private IPs of the matching instances in instance
  order and keeps duplicates.
- **AWS provider block.** `provider.tf` is truncated before the AWS provider block is written, so a
  second call for the same region replaces the block and the file holds exactly one.
- **AWS security groups.** There is one `aws_security_group` per rule, with one ingress/egress block
  per port token of that rule.
- **Selectors.** Validation accepts a side that has both an IP list and a tag list.

## Model

| member | source | states |
|---|---|---|
| PolicyUtils.EnumerationsFixed | src/main/kotlin/policymig/util/PolicyUtils.kt:7-23 | two targets, two directions, two actions, seven protocols, 23 AWS regions including "us-west-2" |
| PolicyUtils.DefaultNetworkName | src/main/kotlin/policymig/util/PolicyUtils.kt:16 | "default", the sample network, matches NETWORK_REGEX |
| PolicyUtils.PortNumberBounds | src/main/kotlin/policymig/util/PolicyUtils.kt:18 | PORT_REGEX accepts exactly 1-4 digits (leading zeros allowed) or 5 digits with value 10000..65535; so every accepted port is at most 65535 |
| PolicyUtils.OctetBounds | src/main/kotlin/policymig/util/PolicyUtils.kt:17 | an IP_REGEX octet is exactly a 1-3 digit number 0..255 without leading zero |
| PolicyUtils.PrefixBounds | src/main/kotlin/policymig/util/PolicyUtils.kt:17 | the prefix length is exactly a 1-2 digit number 0..32 without leading zero |
| PolicyUtils.IpCidrIntro | src/main/kotlin/policymig/util/PolicyUtils.kt:17 | four octets and a prefix written `A.B.C.D/p` match IP_REGEX |
| PolicyUtils.IpCidrParts | src/main/kotlin/policymig/util/PolicyUtils.kt:17 | conversely every match is `A.B.C.D/p` with octets at most 255 and prefix at most 32 |
| PolicyUtils.IpCidrNeedsPrefix | src/main/kotlin/policymig/util/PolicyUtils.kt:17 | the `/p` part is mandatory: `A.B.C.D` alone is refused |
| PolicyUtils.IpCidrOctets | src/main/kotlin/policymig/util/PolicyUtils.kt:17 | `A.B.C.D/p` of digit groups matches only if each of A..D is a valid octet, so an octet above 255 is refused |
| PolicyUtils.InvalidTestAddressRejected | src/test/kotlin/DslTest.kt:111 | the test's address "192.22.6.355" is refused, with or without a prefix |
| PolicyUtils.TagTokenShape | src/main/kotlin/policymig/util/PolicyUtils.kt:19 | a TAG_REGEX match is `key=value` with both sides non-empty over `[a-zA-Z0-9.-]` |
| PolicyUtils.TagTokenIntro | src/main/kotlin/policymig/util/PolicyUtils.kt:19 | every such `key=value` matches TAG_REGEX |
| PolicyFixtures.SamplePortTokensValid | src/main/kotlin/policymig/util/PolicyUtils.kt:52-57 | the sample ports "8080", "5500-5600" and "0" pass the port check |
| PolicyFixtures.SampleRuleValid | src/main/kotlin/policymig/util/PolicyUtils.kt:50-61 | both sample rules pass rule validation |
| PolicyFixtures.SampleRule | src/main/kotlin/policymig/util/PolicyUtils.kt:51-60 | the sample rules allow tcp and udp traffic |
| PolicyFixtures.SampleRulesShape | src/main/kotlin/policymig/util/PolicyUtils.kt:50-61 | two rules, both "allow", none with protocol "all" (so valid for either cloud) |
| PolicyFixtures.SampleFieldsValid | src/main/kotlin/policymig/util/PolicyUtils.kt:38-85 | the sample fields validate when the selector side agrees with the upper-cased direction |
| PolicyFixtures.SampleFieldsInvalid | src/main/kotlin/policymig/util/PolicyUtils.kt:41-85 | and fail validation when it does not |
| PolicyFixtures.SamplePolicySucceeds | src/main/kotlin/policymig/util/PolicyUtils.kt:34-86 | getSamplePolicy succeeds iff the target is valid and the direction is exactly "INGRESS" or upper-cases to "EGRESS"; aws gets region us-west-2 and no network, gcp network "default" and no region; two rules |
| PolicyFixtures.SamplePolicyLowercaseIngressFails | src/main/kotlin/policymig/util/PolicyUtils.kt:36-71 | "ingress" passes the case-insensitive direction check but takes the egress branch and fails validation |
| PolicyFixtures.SamplePolicyCorrectedSucceeds | src/main/kotlin/policymig/util/PolicyUtils.kt:34-86 | branching on the upper-cased direction, the fixture succeeds for every valid target and direction |
| PolicyModel.PortTokenMeaning | src/main/kotlin/policymig/model/Models.kt:149-158 | a port token is accepted iff every `-` piece matches PORT_REGEX and, with two or more pieces, piece 0 is at most piece 1 |
| PolicyModel.PortTokensRejected | src/main/kotlin/policymig/model/Models.kt:149-158 | "70000" and "-1" fail the range check, "5600-5500" fails the ordering check |
| PolicyModel.PortTokensAccepted | src/main/kotlin/policymig/model/Models.kt:149-158 | "0", "65535" and "100-200" are accepted |
| PolicyModel.ThreePieceTokenAccepted | src/main/kotlin/policymig/model/Models.kt:154-157 | "1-2-3" splits into three pieces and is accepted, since only the first two are compared |
| PolicyModel.CheckPortsMeaning | src/main/kotlin/policymig/model/Models.kt:149-158 | the port loop passes iff every token passes |
| PolicyModel.RuleValidMeaning | src/main/kotlin/policymig/model/Models.kt:148-162 | a rule is valid iff all ports are valid tokens, the action is in ACTIONS and the protocol in PROTOCOLS |
| PolicyModel.NewRule | src/main/kotlin/policymig/model/Models.kt:138-162 | construction succeeds iff the rule is valid, and the rule keeps the given fields |
| PolicyModel.InvalidActionRefused | src/main/kotlin/policymig/model/Models.kt:160 | a rule with action "invalid" is never built |
| PolicyModel.CheckGcpRulesMeaning | src/main/kotlin/policymig/model/Models.kt:60-65 | GCP rules pass iff no rule uses protocol "all" |
| PolicyModel.CheckAwsRulesMeaning | src/main/kotlin/policymig/model/Models.kt:66-75 | AWS rules pass iff every action is "allow" and protocol "all" comes only with ports ["0"] |
| PolicyModel.AwsProtocolCheckNeverFires | src/main/kotlin/policymig/model/Models.kt:69 | the sctp/esp/ah disjunction is always true: no AWS rule is refused for its protocol |
| PolicyModel.CheckIpListMeaning | src/main/kotlin/policymig/model/Models.kt:81-82 | an IP list passes iff every entry matches IP_REGEX |
| PolicyModel.CheckPolicyMeaning | src/main/kotlin/policymig/model/Models.kt:43-83 | the check sequence passes iff the policy invariant holds (direction, selector exclusivity, provider rules, region, network and IP grammars) |
| PolicyModel.SelectorSide | src/main/kotlin/policymig/model/Models.kt:44-67 | a valid policy populates the source side iff its upper-cased direction is INGRESS, and the target side iff not; gcp has a network, aws a region |
| PolicyModel.NewPolicy | src/main/kotlin/policymig/model/Models.kt:25-83 | construction succeeds iff the invariant holds, and keeps every field |
| PolicyModel.TranslatableRulesMembers | src/main/kotlin/policymig/model/Models.kt:100 | the filtered rules are exactly the allow rules with protocol tcp, udp or icmp |
| PolicyModel.TranslatableRulesAppend | src/main/kotlin/policymig/model/Models.kt:100 | the filter distributes over concatenation (it keeps order) |
| PolicyModel.TranslatableRulesIdempotent | src/main/kotlin/policymig/model/Models.kt:100 | filtering twice equals filtering once |
| PolicyModel.Translate | src/main/kotlin/policymig/model/Models.kt:93-102 | an unknown target is refused; otherwise the copy has the new target, network/region set per target, the filtered rules and every other field unchanged |
| PolicyModel.TranslateSucceeds | src/main/kotlin/policymig/model/Models.kt:93-102 | for a known target translation succeeds iff aws gets a known region or gcp a valid network name |
| PolicyModel.TranslatedRulesPortable | src/main/kotlin/policymig/model/Models.kt:100 | every translated rule comes from the original and is an allow rule over tcp, udp or icmp |
| PolicyModel.TranslateIdempotent | src/main/kotlin/policymig/model/Models.kt:93-102 | translating a translated policy again to the same target gives the same result |
| PolicyModel.CountTargetPositive | src/main/kotlin/policymig/model/Models.kt:174-175 | a target's count is positive iff some policy has that target |
| PolicyModel.CloudTargetCountMeaning | src/main/kotlin/policymig/model/Models.kt:173-184 | the count is 2 iff both clouds occur and 1 otherwise (the 0 branch is unreachable) |
| PolicyModel.AppendLines | src/main/kotlin/policymig/model/Models.kt:104-127 | appending lines one by one yields the text followed by each line and a newline |
| PolicyModel.RuleToString | src/main/kotlin/policymig/model/Models.kt:164-170 | a rule renders as its five lines (action, protocol, quoted port list between `rule {` and `}`) |
| PolicyModel.RuleTextLines | src/main/kotlin/policymig/model/Models.kt:164-170 | the rendered rule splits back into exactly those five lines and a trailing empty piece |
| PolicyModel.RulesTextSnoc | src/main/kotlin/policymig/model/Models.kt:124 | one more rule appends its tab-prefixed text at the end |
| PolicyModel.PolicyToString | src/main/kotlin/policymig/model/Models.kt:104-128 | the serialiser writes the head lines (name, description, direction, target, the network and region when set, each selector list when set, IPs quoted and each tag as `"key=value"`, in order), every rule in order, then the closing lines |
| PolicyModel.AppendRules | src/main/kotlin/policymig/model/Models.kt:123-125 | the rule loop appends the rendered rules in order |
| PolicyModel.PolicyTextSelectors | src/main/kotlin/policymig/model/Models.kt:111-122 | an ingress policy prints at least one source line and no target line, any other the reverse |
| Text.SplitJoin | src/main/kotlin/policymig/model/Models.kt:150 | split pieces contain no delimiter and joining them restores the string |
| Text.JoinSplit | src/main/kotlin/policymig/model/Models.kt:150 | splitting a join of delimiter-free pieces gives the pieces back |
| Text.ToUpperIsCaseInsensitive | src/main/kotlin/policymig/model/Models.kt:44 | comparing the upper-cased string with an upper-case word such as "INGRESS" accepts exactly the strings that spell the word in any mix of cases |
| Text.DecValueBound | src/main/kotlin/policymig/model/Models.kt:157 | the decimal value of n digits is below 10^n |
| Text.SplitUnlines | src/main/kotlin/policymig/model/Models.kt:164-170 | text written line by line splits back into its lines |
| DbModels.InstanceBuilder.constructor | src/main/kotlin/policymig/db/Models.kt:40-48 | every string field starts as "" and every list as empty |
| DbModels.InstanceBuilder.Build | src/main/kotlin/policymig/db/Models.kt:55 | the built instance carries every builder field unchanged |
| DbModels.ContainsInstance | src/main/kotlin/policymig/db/Models.kt:73-79 | true iff some instance has the id (so false on an empty list) |
| DbUtils.MatchingAppend | src/main/kotlin/policymig/util/db/DbUtils.kt:131 | the tag filter keeps instance order across concatenation |
| DbUtils.PrivateIpsAppend | src/main/kotlin/policymig/util/db/DbUtils.kt:132-133 | flattening private IPs distributes over concatenation |
| DbUtils.ResolveAppend | src/main/kotlin/policymig/util/db/DbUtils.kt:130-133 | resolution of two instance lists is the concatenation of their resolutions (duplicates kept) |
| DbUtils.ResolveMembers | src/main/kotlin/policymig/util/db/DbUtils.kt:130-133 | an IP is resolved iff it is a private IP of an instance sharing an exact `(key, value)` pair with the selector |
| DbUtils.FetchTagsAsIpMembers | src/main/kotlin/policymig/util/db/DbUtils.kt:123-134 | the same over the store of the target: gcp reads the GCP instances, anything else the AWS ones |
| DbUtils.ResolveNoMatch | src/main/kotlin/policymig/util/db/DbUtils.kt:131 | no matching instance gives the empty list |
| DbUtils.EmptySelectorResolvesToNothing | src/main/kotlin/policymig/util/db/DbUtils.kt:131 | an empty selector resolves to the empty list |
| DbUtils.ResolveWebExample | src/main/kotlin/policymig/util/db/DbUtils.kt:123-134 | app=web selects only the web instance's IPs, key-only matches do not count |
| DslUtils.RuleBuilder.constructor | src/main/kotlin/policymig/util/dsl/DslUtils.kt:35-38 | defaults: no ports, "allow", "tcp" |
| DslUtils.RuleBuilder.Build | src/main/kotlin/policymig/util/dsl/DslUtils.kt:40 | building succeeds iff the fields form a valid rule, which then holds them unchanged |
| DslUtils.DefaultRuleBuilds | src/main/kotlin/policymig/util/dsl/DslUtils.kt:36-38 | the default rule (empty ports) is valid |
| DslUtils.RulesList.constructor | src/main/kotlin/policymig/util/dsl/DslUtils.kt:44 | a rules block starts empty |
| DslUtils.RulesList.AddRule | src/main/kotlin/policymig/util/dsl/DslUtils.kt:45 | `rule {}` appends the built rule at the end, or fails and leaves the list alone |
| DslUtils.PolicyBuilder.constructor | src/main/kotlin/policymig/util/dsl/DslUtils.kt:15-26 | defaults: empty strings (direction "" too), no network, region or selectors, no rules |
| DslUtils.PolicyBuilder.AddRules | src/main/kotlin/policymig/util/dsl/DslUtils.kt:28 | `rules {}` appends the block's rules in order and changes nothing else |
| DslUtils.PolicyBuilder.Build | src/main/kotlin/policymig/util/dsl/DslUtils.kt:30-31 | building succeeds iff the fields satisfy the policy invariant, and passes them unchanged |
| DslUtils.UnsetDirectionRefused | src/main/kotlin/policymig/util/dsl/DslUtils.kt:19 | a builder whose direction was never set fails with an invalid direction |
| TerraformUtils.Insert | src/main/kotlin/policymig/util/TerraformUtils.kt:120-124 | `add(index, x)` puts x at index and shifts the tail right |
| TerraformUtils.RemoveAt | src/main/kotlin/policymig/util/TerraformUtils.kt:127 | `removeAt(index)` drops that element and shifts the tail left |
| TerraformUtils.AppendAll | src/main/kotlin/policymig/util/TerraformUtils.kt:167-171 | appending each piece in turn appends their concatenation |
| TerraformUtils.RandomHexString | src/main/kotlin/policymig/util/TerraformUtils.kt:339-341 | eight pairwise-distinct characters from a-z and 0-9, the `ResourceSuffix` shape the generators require |
| TerraformUtils.SuffixCharsDistinct | src/main/kotlin/policymig/util/TerraformUtils.kt:340 | the alphabet has 36 distinct characters from a-z and 0-9 |
| TerraformUtils.ShuffleProperties | src/main/kotlin/policymig/util/TerraformUtils.kt:341 | any shuffle of the alphabet has distinct characters from a-z and 0-9 |
| TerraformUtils.ResolveSide | src/main/kotlin/policymig/util/TerraformUtils.kt:125-152 | a side renders a list iff it has IPs or tags; tags take precedence, without tags the IPs are used unchanged |
| TerraformUtils.BuildGcpRuleBlock | src/main/kotlin/policymig/util/TerraformUtils.kt:154-163 | the nested block text is the allow/deny template with protocol and quoted ports spliced in |
| TerraformUtils.GcpRuleTextAction | src/main/kotlin/policymig/util/TerraformUtils.kt:154-158 | the nested block opens with `allow` iff the action is "allow", otherwise `deny` |
| TerraformUtils.BuildGcpFirewallBlock | src/main/kotlin/policymig/util/TerraformUtils.kt:119-164 | the template surgery yields the stated layout for each combination of populated sides |
| TerraformUtils.GcpLayoutShape | src/main/kotlin/policymig/util/TerraformUtils.kt:119-164 | with one side set, the block has 14 pieces: header, name, network, direction, description, the `source_ranges` or `destination_ranges` key by side, the list, the nested block, the closing |
| TerraformUtils.GcpFirewallShape | src/main/kotlin/policymig/util/TerraformUtils.kt:118-164 | for rule i of a valid gcp policy: name is policy name + i, source_ranges iff ingress with the resolved list, nested block of that rule, never protocol "all" |
| TerraformUtils.BuildAwsPortBlock | src/main/kotlin/policymig/util/TerraformUtils.kt:211-252 | one port's ingress/egress block text |
| TerraformUtils.FillPortHead | src/main/kotlin/policymig/util/TerraformUtils.kt:211-233 | the block picks ingress or egress by direction and splices from, to and protocol |
| TerraformUtils.AddCidrs | src/main/kotlin/policymig/util/TerraformUtils.kt:234-250 | the resolved CIDR lists are inserted before the closing brace |
| TerraformUtils.BuildAwsSecurityGroup | src/main/kotlin/policymig/util/TerraformUtils.kt:205-255 | the group is the template with name, description, createdAt and one ingress/egress block per port token, in port order, spliced in |
| TerraformUtils.PortBoundsMeaning | src/main/kotlin/policymig/util/TerraformUtils.kt:216-227 | a token with two `-` pieces gives from/to = the pieces with from at most to; any other token gives from = to = the token |
| TerraformUtils.AwsProtocolMeaning | src/main/kotlin/policymig/util/TerraformUtils.kt:229-233 | the emitted protocol is "-1" iff the rule's protocol is "all" |
| TerraformUtils.AwsGroupLayoutShape | src/main/kotlin/policymig/util/TerraformUtils.kt:205-255 | the group has header, name, description, the createdAt value before the port blocks, the port blocks in order and the closing |
| TerraformUtils.AwsPortTextOneSide | src/main/kotlin/policymig/util/TerraformUtils.kt:234-250 | for a valid aws policy only the side its direction populates contributes CIDRs, and every rule allows |
| TerraformUtils.Workspace.CreateGcpProviderBlock | src/main/kotlin/policymig/util/TerraformUtils.kt:85-101 | gcp provider.tf is replaced by the provider block with project and credentials; nothing else changes |
| TerraformUtils.Workspace.CreateGcpFirewallBlock | src/main/kotlin/policymig/util/TerraformUtils.kt:109-173 | takes one `randomHexString` shaped suffix per rule; refused unless target is gcp; otherwise appends one firewall block per rule in order to firewalls.tf and leaves every other file alone |
| TerraformUtils.Workspace.AppendGcpFirewalls | src/main/kotlin/policymig/util/TerraformUtils.kt:118-172 | the rule loop appends block i for each rule i |
| TerraformUtils.Workspace.CreateAwsSecurityGroupBlock | src/main/kotlin/policymig/util/TerraformUtils.kt:181-261 | takes one `randomHexString` shaped suffix and one timestamp per rule; refused unless target is aws; otherwise rewrites the region's provider.tf with one provider block and appends one security group per rule to its firewalls.tf |
| TerraformUtils.Workspace.WriteAwsProvider | src/main/kotlin/policymig/util/TerraformUtils.kt:196-201 | the region's provider.tf is truncated and holds exactly the provider block |
| TerraformUtils.Workspace.AppendAwsGroups | src/main/kotlin/policymig/util/TerraformUtils.kt:204-260 | the rule loop appends group i for each rule i; no rules leaves firewalls.tf untouched |

## Left out

- File system effects:
  - directory creation and real file writes are left out;
  - the files are the `Workspace` fields, one string per file;
  - an AWS region's `firewalls.tf` that was never written reads as "".
- `randomHexString` and `LocalDateTime.now()` are parameters: one suffix and one timestamp string per
  rule. `RandomHexString` takes the shuffled alphabet, so its contract holds for every shuffle. The
  generators require each suffix to have the shape `RandomHexString` guarantees (`ResourceSuffix`).
- The database queries are left out. `selectAllGcpInstances` / `selectAllAwsInstances` are replaced by
  the `InstanceStore` value. `insertIntoTable`, `dropAllTables` and the schema are not part of this model.
- `runCommand`, `terraformGcp` and `terraformAws` start external processes. They are not part of this
  model.
- The `policy {}` and `instance {}` entry points apply a caller's lambda to a fresh builder, which
  cannot be modelled as data. The model has the builders' constructors, field assignment, `rules {}`,
  `rule {}` and `build`.
- Exceptions from `require` are modelled as `Failure` values that name the failed check. The message
  texts are left out.
- PolicyModel.AppendLines: every line ends in "\n". Kotlin's `appendln` writes the platform line
  separator, which is "\r\n" on Windows. So `RuleToString`, `PolicyToString`, `RuleTextLines` and
  `Text.SplitUnlines` describe the output on platforms whose separator is "\n".
- Text.ToUpper: only ASCII letters are upper-cased. Kotlin's locale-dependent `toUpperCase` also maps
  other letters (for example "ß" to "SS"), which the model does not.
- PolicyBuilder tags: `sourceTags`/`targetTags` are `Map<String,String>?` in the builder but a list of
  pairs in `Policy`. Both are modelled as a sequence of pairs, so duplicate keys are not merged.
- TerraformUtils.BuildGcpFirewallBlock: requires at least one populated side. With neither side set,
  the code's second `removeAt(12)` indexes past the shrunken list and throws. Validation rules that
  case out, so no valid policy reaches it.
- The CLI, cloud SDK discovery, JSON (de)serialisation, logging and the progress spinner are not part
  of this model.

## Findings

| source | as written | input that shows it | evidently intended | confidence | as-written member | corrected member |
|---|---|---|---|---|---|---|
| src/main/kotlin/policymig/util/PolicyUtils.kt:41 | the fixture picks the ingress shape with a case-sensitive `_direction == "INGRESS"`, while line 36 accepts any case | `getSamplePolicy("gcp", "ingress")` sets `targetTags` and the policy fails validation | branch on the upper-cased direction, as validation does | high, not executed | PolicyFixtures.SamplePolicyLowercaseIngressFails | PolicyFixtures.SamplePolicyCorrectedSucceeds |
