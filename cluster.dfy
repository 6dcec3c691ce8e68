/** The subnet wiring of the EKS cluster and its managed node group, and the node
    group's fixed scaling configuration. */
module Cluster {

  /** The cluster's `subnet_ids`: the private subnets, then the public ones. */
  function ClusterSubnetIds(privateIds: seq<string>, publicIds: seq<string>): (ids: seq<string>)
    ensures |ids| == |privateIds| + |publicIds|
    ensures forall i :: 0 <= i < |privateIds| ==> ids[i] == privateIds[i]
    ensures forall j :: 0 <= j < |publicIds| ==> ids[|privateIds| + j] == publicIds[j]
  {
    privateIds + publicIds
  }

  /** `NodegroupScalingConfigArgs(desired_size, min_size, max_size)`. */
  datatype ScalingConfig = ScalingConfig(desiredSize: int, minSize: int, maxSize: int)

  /** The launch template a node group uses, pinned to one version. */
  datatype LaunchTemplateRef = LaunchTemplateRef(name: string, version: string)

  /** The arguments the node group is declared with. */
  datatype NodegroupSpec = NodegroupSpec(
    clusterName: string,
    capacityType: string,
    nodeRole: string,
    launchTemplate: LaunchTemplateRef,
    subnets: seq<string>,
    scaling: ScalingConfig)

  predicate WithinBounds(c: ScalingConfig) {
    c.minSize <= c.desiredSize <= c.maxSize
  }

  /** The node group's scaling literal: two nodes, growing to at most three. */
  function NodegroupScaling(): (c: ScalingConfig)
    ensures WithinBounds(c) && c.minSize >= 1
  {
    ScalingConfig(2, 2, 3)
  }

  /** The managed node group: on-demand capacity in the private subnets only. */
  function ManagedNodes(clusterName: string, nodeRoleArn: string, template: LaunchTemplateRef,
                        privateIds: seq<string>): (ng: NodegroupSpec)
    ensures ng.clusterName == clusterName && ng.nodeRole == nodeRoleArn
    ensures ng.launchTemplate == template
    ensures ng.capacityType == "ON_DEMAND"
    ensures ng.subnets == privateIds
    ensures ng.scaling == NodegroupScaling() && WithinBounds(ng.scaling)
  {
    NodegroupSpec(clusterName, "ON_DEMAND", nodeRoleArn, template, privateIds, NodegroupScaling())
  }

  /** A subnet is a cluster subnet exactly when it is private or public. */
  lemma ClusterSubnetsAreUnion(privateIds: seq<string>, publicIds: seq<string>, s: string)
    ensures s in ClusterSubnetIds(privateIds, publicIds) <==> s in privateIds || s in publicIds
  {
  }

  /** The node group's subnets are a prefix of the cluster's, so every node subnet is
      also a cluster subnet. */
  lemma NodeSubnetsArePrefix(clusterName: string, nodeRoleArn: string, template: LaunchTemplateRef,
                             privateIds: seq<string>, publicIds: seq<string>)
    ensures ManagedNodes(clusterName, nodeRoleArn, template, privateIds).subnets
              <= ClusterSubnetIds(privateIds, publicIds)
    ensures forall s :: s in ManagedNodes(clusterName, nodeRoleArn, template, privateIds).subnets
              ==> s in ClusterSubnetIds(privateIds, publicIds)
  {
  }
}
