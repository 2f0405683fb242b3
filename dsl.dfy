/** The builder DSL of src/main/kotlin/policymig/util/dsl/DslUtils.kt. The `policy { }` and
    `rule { }` lambdas are the caller's code: a caller creates a builder, assigns its fields
    and calls `Build`. A constructor that would throw is a `Failure` here. */
module DslUtils {
  import opened Wrappers
  import opened Text
  import opened PolicyUtils
  import opened PolicyModel

  /** `RuleBuilder`: no ports, action allow, protocol tcp until the caller sets them. */
  class RuleBuilder {
    var ports: seq<string>
    var action: string
    var protocol: string

    constructor ()
      ensures ports == [] && action == "allow" && protocol == "tcp"
    {
      ports, action, protocol := [], "allow", "tcp";
    }

    /** `build()`: the `Rule` of the current fields, or the reason the constructor refuses them. */
    function Build(): (r: Result<Rule, RuleError>)
      reads this
      ensures r.Success? <==>
        (forall i :: 0 <= i < |ports| ==> PortTokenSpec(ports[i])) && action in Actions && protocol in Protocols
      ensures r.Success? ==> r.value == RuleFields(ports, action, protocol)
    {
      NewRule(ports, action, protocol)
    }
  }

  /** A builder left at its defaults builds the rule with no ports, allowing tcp. */
  lemma DefaultRuleBuilds()
    ensures NewRule([], "allow", "tcp") == Success(RuleFields([], "allow", "tcp"))
  {
  }

  /** `RULES`: the list a `rules { }` block fills. */
  class RulesList {
    var rules: seq<Rule>

    constructor ()
      ensures rules == []
    {
      rules := [];
    }

    /** `rule { }`: builds the rule and appends it; a refused rule leaves the list as it was. */
    method AddRule(builder: RuleBuilder) returns (r: Result<Rule, RuleError>)
      modifies this
      ensures r == NewRule(builder.ports, builder.action, builder.protocol)
      ensures r.Success? ==> rules == old(rules) + [r.value]
      ensures r.Failure? ==> rules == old(rules)
    {
      r := builder.Build();
      if r.Success? {
        rules := rules + [r.value];
      }
    }
  }

  /** `PolicyBuilder`: empty name, description, target and direction, no network, region or
      selector, and no rules until the caller sets them. */
  class PolicyBuilder {
    var name: string
    var description: string
    var target: string
    var direction: string
    var network: Option<string>
    var region: Option<string>
    var sourceIps: Option<seq<string>>
    var sourceTags: Option<seq<Tag>>
    var targetIps: Option<seq<string>>
    var targetTags: Option<seq<Tag>>
    var rules: seq<Rule>

    constructor ()
      ensures name == "" && description == "" && target == "" && direction == ""
      ensures network == None && region == None
      ensures sourceIps == None && sourceTags == None && targetIps == None && targetTags == None
      ensures rules == []
    {
      name, description, target, direction := "", "", "", "";
      network, region := None, None;
      sourceIps, sourceTags, targetIps, targetTags := None, None, None, None;
      rules := [];
    }

    function Fields(): PolicyFields
      reads this
    {
      PolicyFields(name, description, target, direction, network, region,
                   sourceIps, sourceTags, targetIps, targetTags, rules)
    }

    /** `rules { }`: every rule of the filled list is appended, in order. */
    method AddRules(list: RulesList)
      modifies this
      ensures rules == old(rules) + old(list.rules)
      ensures name == old(name) && description == old(description)
      ensures target == old(target) && direction == old(direction)
      ensures network == old(network) && region == old(region)
      ensures sourceIps == old(sourceIps) && sourceTags == old(sourceTags)
      ensures targetIps == old(targetIps) && targetTags == old(targetTags)
    {
      rules := rules + list.rules;
    }

    /** `build()`: the `Policy` of the current fields, exactly when they satisfy the policy
        invariant, or the reason the constructor refuses them. */
    function Build(): (r: Result<Policy, PolicyError>)
      reads this
      ensures r.Success? <==> PolicyInvariant(Fields())
      ensures r.Success? ==> r.value == Fields()
    {
      NewPolicy(Fields())
    }
  }

  /** The default direction is the empty string, not INGRESS: a `policy { }` block that does
      not set a direction is refused with the direction error before anything else is checked. */
  lemma UnsetDirectionRefused(f: PolicyFields)
    requires f.direction == ""
    ensures NewPolicy(f) == Failure(InvalidDirection)
  {
    assert ToUpper(f.direction) == "";
    assert CheckDirection(f) == Fail(InvalidDirection);
  }
}
