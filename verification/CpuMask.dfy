/**
 * The mask of CPUs that performance channels use, against the channel lists it summarises
 * (uio_hv_generic/hyperv_vmbus.h:421-460).
 */
module CpuMask {

  datatype Channel = Channel(perf: bool, targetCpu: nat, subTargets: seq<nat>)

  /** Some performance channel or one of its sub-channels targets the CPU. */
  ghost predicate Allocated(channels: seq<Channel>, cpu: nat) {
    exists i :: 0 <= i < |channels| && Targets(channels[i], cpu)
  }

  predicate Targets(c: Channel, cpu: nat) {
    c.perf && (c.targetCpu == cpu || cpu in c.subTargets)
  }

  /** What an update makes of the mask. */
  ghost function Updated(mask: set<nat>, channels: seq<Channel>, oldCpu: nat, newCpu: nat): set<nat> {
    if Allocated(channels, oldCpu) then mask + {newCpu} else mask + {newCpu} - {oldCpu}
  }

  /** An update decides the bits of two CPUs, whatever the mask was before: the new one is set unless it is the old one
      and not in use, and the old one is cleared unless it is in use. No other bit changes. */
  lemma UpdateDecidesTwo(mask: set<nat>, channels: seq<Channel>, oldCpu: nat, newCpu: nat, cpu: nat)
    ensures var after := Updated(mask, channels, oldCpu, newCpu);
            && (newCpu in after <==> newCpu != oldCpu || Allocated(channels, newCpu))
            && (oldCpu != newCpu ==> (oldCpu in after <==> oldCpu in mask && Allocated(channels, oldCpu)))
            && (cpu != oldCpu && cpu != newCpu ==> (cpu in after <==> cpu in mask))
  {}

  /** The masks of all nodes agree but for these CPUs in the masks of their own nodes. */
  ghost predicate OnlyBits(before: seq<set<nat>>, after: seq<set<nat>>, cpuToNode: seq<nat>, cpus: set<nat>) {
    && |after| == |before|
    && forall node, cpu: nat ::
         (0 <= node < |before| && !(cpu in cpus && cpu < |cpuToNode| && cpuToNode[cpu] == node)) ==>
           (cpu in after[node] <==> cpu in before[node])
  }

  lemma OnlyBitsTwice(first: seq<set<nat>>, second: seq<set<nat>>, third: seq<set<nat>>, cpuToNode: seq<nat>,
                      a: set<nat>, b: set<nat>)
    requires OnlyBits(first, second, cpuToNode, a) && OnlyBits(second, third, cpuToNode, b)
    ensures OnlyBits(first, third, cpuToNode, a + b)
  {}

  /** Bit set if and only if allocated, for every CPU there is. */
  ghost predicate Agrees(mask: set<nat>, channels: seq<Channel>) {
    forall cpu: nat :: cpu in mask <==> Allocated(channels, cpu)
  }

  class HvContext {
    var channels: seq<Channel>      // vmbus_connection.chn_list
    const cpuToNode: seq<nat>
    var numaMap: seq<set<nat>>      // hv_context.hv_numa_map

    ghost predicate Valid()
      reads this`numaMap
    {
      forall cpu :: 0 <= cpu < |cpuToNode| ==> cpuToNode[cpu] < |numaMap|
    }

    /** The CPUs whose bit is set in the mask of their own node. */
    ghost function Mask(): set<nat>
      requires Valid()
      reads this`numaMap
    {
      set cpu | 0 <= cpu < |cpuToNode| && cpu in numaMap[cpuToNode[cpu]]
    }

    constructor (channels: seq<Channel>, cpuToNode: seq<nat>, numaMap: seq<set<nat>>)
      requires forall cpu :: 0 <= cpu < |cpuToNode| ==> cpuToNode[cpu] < |numaMap|
      ensures Valid() && this.channels == channels && this.cpuToNode == cpuToNode && this.numaMap == numaMap
    {
      this.channels, this.cpuToNode, this.numaMap := channels, cpuToNode, numaMap;
    }

    /** `hv_is_allocated_cpu`. */
    method IsAllocatedCpu(cpu: nat) returns (found: bool)
      ensures found <==> Allocated(channels, cpu)
    {
      var i := 0;
      while i < |channels|
        invariant 0 <= i <= |channels|
        invariant forall k :: 0 <= k < i ==> !Targets(channels[k], cpu)
      {
        var channel := channels[i];
        i := i + 1;
        if !channel.perf {
          continue;
        }
        if channel.targetCpu == cpu {
          assert Targets(channels[i - 1], cpu);
          return true;
        }
        var j := 0;
        while j < |channel.subTargets|
          invariant 0 <= j <= |channel.subTargets|
          invariant cpu !in channel.subTargets[..j]
        {
          if channel.subTargets[j] == cpu {
            assert Targets(channels[i - 1], cpu);
            return true;
          }
          j := j + 1;
        }
      }
      found := false;
    }

    /** `hv_set_allocated_cpu`. */
    method SetAllocatedCpu(cpu: nat)
      requires Valid() && cpu < |cpuToNode|
      modifies this`numaMap
      ensures Valid() && Mask() == old(Mask()) + {cpu}
      ensures OnlyBits(old(numaMap), numaMap, cpuToNode, {cpu})
    {
      var node := cpuToNode[cpu];
      numaMap := numaMap[node := numaMap[node] + {cpu}];
    }

    /** `hv_clear_allocated_cpu`. */
    method ClearAllocatedCpu(cpu: nat)
      requires Valid() && cpu < |cpuToNode|
      modifies this`numaMap
      ensures Valid()
      ensures Mask() == if Allocated(channels, cpu) then old(Mask()) else old(Mask()) - {cpu}
      ensures OnlyBits(old(numaMap), numaMap, cpuToNode, {cpu})
    {
      var inUse := IsAllocatedCpu(cpu);
      if inUse {
        return;
      }
      var node := cpuToNode[cpu];
      numaMap := numaMap[node := numaMap[node] - {cpu}];
    }

    /** `hv_update_allocated_cpus`. */
    method UpdateAllocatedCpus(oldCpu: nat, newCpu: nat)
      requires Valid() && oldCpu < |cpuToNode| && newCpu < |cpuToNode|
      modifies this`numaMap
      ensures Valid() && Mask() == Updated(old(Mask()), channels, oldCpu, newCpu)
      ensures OnlyBits(old(numaMap), numaMap, cpuToNode, {oldCpu, newCpu})
    {
      SetAllocatedCpu(newCpu);
      label between:
      ClearAllocatedCpu(oldCpu);
      OnlyBitsTwice(old(numaMap), old@between(numaMap), numaMap, cpuToNode, {newCpu}, {oldCpu});
      assert {newCpu} + {oldCpu} == {oldCpu, newCpu};
    }
  }

  // ---------------------------------------------------------------------------------------------
  // Retargeting one channel
  // ---------------------------------------------------------------------------------------------

  /** A channel of the list, or a sub-channel of one. */
  datatype Place = Primary(i: nat) | Sub(i: nat, j: nat)

  predicate Exists(channels: seq<Channel>, p: Place) {
    p.i < |channels| && (p.Sub? ==> p.j < |channels[p.i].subTargets|)
  }

  function TargetAt(channels: seq<Channel>, p: Place): nat
    requires Exists(channels, p)
  {
    match p
    case Primary(i) => channels[i].targetCpu
    case Sub(i, j) => channels[i].subTargets[j]
  }

  /** The lists after the caller has stored the new target CPU. */
  function Retarget(channels: seq<Channel>, p: Place, cpu: nat): (r: seq<Channel>)
    requires Exists(channels, p)
    ensures |r| == |channels|
  {
    match p
    case Primary(i) => channels[i := channels[i].(targetCpu := cpu)]
    case Sub(i, j) => channels[i := channels[i].(subTargets := channels[i].subTargets[j := cpu])]
  }

  lemma RetargetedChannel(channels: seq<Channel>, p: Place, newCpu: nat, cpu: nat)
    requires Exists(channels, p)
    ensures var oldCpu, after := TargetAt(channels, p), Retarget(channels, p, newCpu);
            && Targets(channels[p.i], oldCpu) == Targets(after[p.i], newCpu) == channels[p.i].perf
            && (cpu != oldCpu && cpu != newCpu ==> Targets(after[p.i], cpu) == Targets(channels[p.i], cpu))
            && forall k :: 0 <= k < |channels| && k != p.i ==> after[k] == channels[k]
  {
    if p.Sub? {
      var before, after := channels[p.i].subTargets, channels[p.i].subTargets[p.j := newCpu];
      assert after[p.j] == newCpu;
      assert forall k :: 0 <= k < |before| && k != p.j ==> before[k] == after[k];
    }
  }

  lemma RetargetChangesTwo(channels: seq<Channel>, p: Place, newCpu: nat, cpu: nat)
    requires Exists(channels, p)
    ensures var oldCpu, after := TargetAt(channels, p), Retarget(channels, p, newCpu);
            && (cpu != oldCpu && cpu != newCpu ==> (Allocated(after, cpu) <==> Allocated(channels, cpu)))
            && (channels[p.i].perf ==> Allocated(channels, oldCpu) && Allocated(after, newCpu))
            && (!channels[p.i].perf ==> (Allocated(after, cpu) <==> Allocated(channels, cpu)))
  {
    var oldCpu, after := TargetAt(channels, p), Retarget(channels, p, newCpu);
    RetargetedChannel(channels, p, newCpu, cpu);
    if Allocated(channels, cpu) {
      var k :| 0 <= k < |channels| && Targets(channels[k], cpu);
      assert cpu != oldCpu && cpu != newCpu ==> Targets(after[k], cpu);
      assert !channels[p.i].perf ==> Targets(after[k], cpu);
    }
    if Allocated(after, cpu) {
      var k :| 0 <= k < |after| && Targets(after[k], cpu);
      assert cpu != oldCpu && cpu != newCpu ==> Targets(channels[k], cpu);
      assert !channels[p.i].perf ==> Targets(channels[k], cpu);
    }
  }

  /** For any lists, any channel or sub-channel and any old and new CPU, equal or not: after the caller has stored
      the new target, the update restores agreement exactly when the new CPU is then allocated (or is the old one). It
      is whenever the channel is a performance channel. */
  lemma UpdateRestoresAgreement(mask: set<nat>, channels: seq<Channel>, p: Place, newCpu: nat)
    requires Exists(channels, p) && Agrees(mask, channels)
    ensures var oldCpu, after := TargetAt(channels, p), Retarget(channels, p, newCpu);
            Agrees(Updated(mask, after, oldCpu, newCpu), after) <==>
              Allocated(after, newCpu) || newCpu == oldCpu
    ensures channels[p.i].perf ==> Allocated(Retarget(channels, p, newCpu), newCpu)
  {
    var oldCpu, after := TargetAt(channels, p), Retarget(channels, p, newCpu);
    var updated := Updated(mask, after, oldCpu, newCpu);
    RetargetChangesTwo(channels, p, newCpu, newCpu);
    if Allocated(after, newCpu) || newCpu == oldCpu {
      forall cpu: nat
        ensures cpu in updated <==> Allocated(after, cpu)
      {
        RetargetChangesTwo(channels, p, newCpu, cpu);
      }
    }
  }

  /** In particular the update for a channel that is no performance channel sets a bit that nothing accounts for. */
  lemma UpdateForOtherChannelDisagrees(mask: set<nat>, channels: seq<Channel>, p: Place, newCpu: nat)
    requires Exists(channels, p) && Agrees(mask, channels) && !channels[p.i].perf
    requires newCpu !in mask && newCpu != TargetAt(channels, p)
    ensures var oldCpu, after := TargetAt(channels, p), Retarget(channels, p, newCpu);
            newCpu in Updated(mask, after, oldCpu, newCpu) && !Allocated(after, newCpu)
  {
    RetargetChangesTwo(channels, p, newCpu, newCpu);
  }
}
