/** `fetchTagsAsIp` of src/main/kotlin/policymig/util/db/DbUtils.kt. The database query that
    supplies the instances is replaced by an `InstanceStore` value holding what the two
    `selectAll...Instances` queries would return. */
module DbUtils {
  import opened DbModels

  datatype InstanceStore = InstanceStore(gcpInstances: seq<Instance>, awsInstances: seq<Instance>)

  /** `selectAllGcpInstances()` for target "gcp", `selectAllAwsInstances()` for any other string. */
  function InstancesFor(store: InstanceStore, target: string): seq<Instance>
  {
    if target == "gcp" then store.gcpInstances else store.awsInstances
  }

  /** `tags.any { tag -> tag in instance.tags }`: an exact (key, value) pair is shared. */
  predicate SharesTag(inst: Instance, tags: seq<InstanceTag>)
  {
    exists k :: 0 <= k < |tags| && tags[k] in inst.tags
  }

  /** `.filter { ... }` */
  function MatchingInstances(instances: seq<Instance>, tags: seq<InstanceTag>): seq<Instance>
    decreases |instances|
  {
    if instances == [] then []
    else (if SharesTag(instances[0], tags) then [instances[0]] else []) + MatchingInstances(instances[1..], tags)
  }

  /** `.map { it.privateIps }.flatten()` */
  function PrivateIpsOf(instances: seq<Instance>): seq<string>
    decreases |instances|
  {
    if instances == [] then [] else instances[0].privateIps + PrivateIpsOf(instances[1..])
  }

  function FetchTagsAsIp(store: InstanceStore, target: string, tags: seq<InstanceTag>): seq<string>
  {
    PrivateIpsOf(MatchingInstances(InstancesFor(store, target), tags))
  }

  /** Resolution over a concatenation of inventories is the concatenation of the
      resolutions: instance order is kept and duplicates are not removed. */
  lemma {:induction false} ResolveAppend(a: seq<Instance>, b: seq<Instance>, tags: seq<InstanceTag>)
    ensures PrivateIpsOf(MatchingInstances(a + b, tags))
         == PrivateIpsOf(MatchingInstances(a, tags)) + PrivateIpsOf(MatchingInstances(b, tags))
  {
    MatchingAppend(a, b, tags);
    PrivateIpsAppend(MatchingInstances(a, tags), MatchingInstances(b, tags));
  }

  lemma {:induction false} MatchingAppend(a: seq<Instance>, b: seq<Instance>, tags: seq<InstanceTag>)
    ensures MatchingInstances(a + b, tags) == MatchingInstances(a, tags) + MatchingInstances(b, tags)
    decreases |a|
  {
    if a == [] {
      assert a + b == b;
    } else {
      assert (a + b)[0] == a[0];
      assert (a + b)[1..] == a[1..] + b;
      MatchingAppend(a[1..], b, tags);
    }
  }

  lemma {:induction false} PrivateIpsAppend(a: seq<Instance>, b: seq<Instance>)
    ensures PrivateIpsOf(a + b) == PrivateIpsOf(a) + PrivateIpsOf(b)
    decreases |a|
  {
    if a == [] {
      assert a + b == b;
    } else {
      assert (a + b)[0] == a[0];
      assert (a + b)[1..] == a[1..] + b;
      PrivateIpsAppend(a[1..], b);
    }
  }

  /** An address is returned exactly when some instance of the target's inventory shares a
      selector pair and lists the address among its private IPs. */
  lemma {:induction false} ResolveMembers(instances: seq<Instance>, tags: seq<InstanceTag>, ip: string)
    ensures ip in PrivateIpsOf(MatchingInstances(instances, tags)) <==>
      exists i :: 0 <= i < |instances| && SharesTag(instances[i], tags) && ip in instances[i].privateIps
    decreases |instances|
  {
    if instances != [] {
      ResolveMembers(instances[1..], tags, ip);
      var head := if SharesTag(instances[0], tags) then [instances[0]] else [];
      PrivateIpsAppend(head, MatchingInstances(instances[1..], tags));
      if head != [] {
        assert PrivateIpsOf(head) == instances[0].privateIps by {
          assert head[1..] == [];
        }
      }
      if exists i :: 0 <= i < |instances| && SharesTag(instances[i], tags) && ip in instances[i].privateIps {
        var i :| 0 <= i < |instances| && SharesTag(instances[i], tags) && ip in instances[i].privateIps;
        if i > 0 {
          assert instances[1..][i - 1] == instances[i];
        }
      }
      if exists j :: 0 <= j < |instances[1..]| && SharesTag(instances[1..][j], tags) && ip in instances[1..][j].privateIps {
        var j :| 0 <= j < |instances[1..]| && SharesTag(instances[1..][j], tags) && ip in instances[1..][j].privateIps;
        assert instances[j + 1] == instances[1..][j];
      }
    }
  }

  /** Membership in the result of `FetchTagsAsIp`, for the inventory of the given target. */
  lemma FetchTagsAsIpMembers(store: InstanceStore, target: string, tags: seq<InstanceTag>, ip: string)
    ensures ip in FetchTagsAsIp(store, target, tags) <==>
      exists i :: 0 <= i < |InstancesFor(store, target)| &&
        SharesTag(InstancesFor(store, target)[i], tags) && ip in InstancesFor(store, target)[i].privateIps
  {
    ResolveMembers(InstancesFor(store, target), tags, ip);
  }

  /** When no instance shares a pair the result is empty rather than an error; in particular
      an empty selector always resolves to nothing. */
  lemma {:induction false} ResolveNoMatch(instances: seq<Instance>, tags: seq<InstanceTag>)
    requires forall i :: 0 <= i < |instances| ==> !SharesTag(instances[i], tags)
    ensures MatchingInstances(instances, tags) == []
    ensures PrivateIpsOf(MatchingInstances(instances, tags)) == []
    decreases |instances|
  {
    if instances != [] {
      ResolveNoMatch(instances[1..], tags);
    }
  }

  lemma EmptySelectorResolvesToNothing(store: InstanceStore, target: string)
    ensures FetchTagsAsIp(store, target, []) == []
  {
    ResolveNoMatch(InstancesFor(store, target), []);
  }

  /** One instance tagged app=web with private range 10.1.2.0/24 and one tagged app=db:
      the selector app=web resolves to that range alone (matching is on the pair, not the key). */
  lemma ResolveWebExample(web: Instance, db: Instance)
    requires web.tags == [("app", "web")] && web.privateIps == ["10.1.2.0/24"]
    requires db.tags == [("app", "db")]
    ensures FetchTagsAsIp(InstanceStore([web, db], []), "gcp", [("app", "web")]) == ["10.1.2.0/24"]
  {
    var tags: seq<InstanceTag> := [("app", "web")];
    assert SharesTag(web, tags) by { assert tags[0] in web.tags; }
    assert !SharesTag(db, tags);
    assert [web, db][1..] == [db];
    assert MatchingInstances([db], tags) == [] by { ResolveNoMatch([db], tags); }
    assert MatchingInstances([web, db], tags) == [web];
    assert PrivateIpsOf([web]) == web.privateIps + PrivateIpsOf([]);
  }
}
