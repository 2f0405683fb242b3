/** The discovered-instance record of src/main/kotlin/policymig/db/Models.kt and its builder. */
module DbModels {

  /** A `key to value` tag pair of an instance. */
  type InstanceTag = (string, string)

  datatype Instance = Instance(
    instanceId: string,
    accountId: string,
    region: string,
    target: string,
    networkInterfaceIds: seq<string>,
    privateIps: seq<string>,
    publicIps: seq<string>,
    tags: seq<InstanceTag>)

  /** `InstanceBuilder`: every field starts empty and is set by the `instance { }` block. */
  class InstanceBuilder {
    var instanceId: string
    var accountId: string
    var region: string
    var target: string
    var networkInterfaceIds: seq<string>
    var privateIps: seq<string>
    var publicIps: seq<string>
    var tags: seq<InstanceTag>

    constructor ()
      ensures instanceId == "" && accountId == "" && region == "" && target == ""
      ensures networkInterfaceIds == [] && privateIps == [] && publicIps == [] && tags == []
    {
      instanceId, accountId, region, target := "", "", "", "";
      networkInterfaceIds, privateIps, publicIps, tags := [], [], [], [];
    }

    /** `build()`: the record holds every builder field unchanged. */
    function Build(): (inst: Instance)
      reads this
      ensures inst.instanceId == instanceId && inst.accountId == accountId
      ensures inst.region == region && inst.target == target
      ensures inst.networkInterfaceIds == networkInterfaceIds
      ensures inst.privateIps == privateIps && inst.publicIps == publicIps && inst.tags == tags
    {
      Instance(instanceId, accountId, region, target, networkInterfaceIds, privateIps, publicIps, tags)
    }
  }

  /** `List<Instance>.contains(instanceId)`: a scan that returns as soon as an id matches;
      false for the empty list. */
  method ContainsInstance(instances: seq<Instance>, instanceId: string) returns (found: bool)
    ensures found <==> exists i :: 0 <= i < |instances| && instances[i].instanceId == instanceId
  {
    for i := 0 to |instances|
      invariant forall j :: 0 <= j < i ==> instances[j].instanceId != instanceId
    {
      if instances[i].instanceId == instanceId {
        return true;
      }
    }
    return false;
  }
}
